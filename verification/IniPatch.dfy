/** DuckStation's settings rewrite as it loops over the file's lines, and the table it forces. */
module IniPatch {
  import opened Ini
  import opened Lists
  import opened Options

  const PINNED_CARD := "shared_card_1.mcd"

  const PATCHES: seq<Patch> := [
    Patch("Main", "SetupWizardIncomplete", "false"),
    Patch("Main", "ConfirmPowerOff", "false"),
    Patch("Main", "SaveStateOnExit", "true"),
    Patch("Main", "CreateSaveStateBackups", "false"),
    Patch("AutoUpdater", "CheckAtStartup", "false"),
    Patch("MemoryCards", "Card1Type", "Shared"),
    Patch("MemoryCards", "Card1Path", PINNED_CARD),
    Patch("MemoryCards", "Directory", "memcards"),
    Patch("Folders", "SaveStates", "savestates")]

  // ---- The table is one the rewrite's meaning holds for ----

  /** Nothing in the setting could be taken for something else once its line is stripped. */
  predicate IsPlain(p: Patch) {
    && p.key != "" && '=' !in p.key && p.key[0] != '[' && !IsSpace(p.key[0]) && p.key[|p.key| - 1] != ' '
    && p.value != "" && !IsSpace(p.value[|p.value| - 1])
  }

  lemma PlainIsGood(p: Patch)
    requires IsPlain(p)
    ensures GoodPatch(p)
  {
    var line, header := LineOf(p), HeaderOf(p.section);
    assert line[0] == p.key[0] && line[|line| - 1] == p.value[|p.value| - 1];
    assert Strip(line) == line && Strip(header) == header;
    assert p.key + " =" <= line;
  }

  lemma MainIsPlain()
    ensures forall i :: 0 <= i < 5 ==> IsPlain(PATCHES[i])
  {}

  lemma CardsArePlain()
    ensures forall i :: 5 <= i < 9 ==> IsPlain(PATCHES[i])
  {}

  lemma KeysDiffer(i: nat, j: nat)
    requires i < j < |PATCHES|
    ensures PATCHES[i].key != PATCHES[j].key
  {
    assert |PATCHES[i].key| == |PATCHES[j].key| ==> PATCHES[i].key[5] != PATCHES[j].key[5];
  }

  lemma TableIsGood()
    ensures GoodTable(PATCHES) && Patch("MemoryCards", "Card1Path", PINNED_CARD) in PATCHES
  {
    assert PATCHES[6] == Patch("MemoryCards", "Card1Path", PINNED_CARD);
    MainIsPlain();
    CardsArePlain();
    forall i | 0 <= i < |PATCHES| ensures GoodPatch(PATCHES[i]) { PlainIsGood(PATCHES[i]); }
    forall i, j | 0 <= i < j < |PATCHES| ensures PATCHES[i].key != PATCHES[j].key { KeysDiffer(i, j); }
  }

  /** Whatever the file said, a table like the one above leaves DuckStation mounting the pinned card,
      the one name an imported card can land under before the disc boots. */
  lemma CardIsPinned(patches: seq<Patch>, lines: seq<string>)
    requires GoodTable(patches) && Patch("MemoryCards", "Card1Path", PINNED_CARD) in patches
    ensures var found := Lookup(Patched(patches, lines), "MemoryCards", "Card1Path");
            found != [] && AllAre(found, "Card1Path" + " = " + PINNED_CARD)
  {
    var i :| 0 <= i < |patches| && patches[i] == Patch("MemoryCards", "Card1Path", PINNED_CARD);
    EverySettingForced(patches, lines, i);
  }

  // ---- The loops ----

  /** The setting a line is forced to, if one matches it. */
  method Match(patches: seq<Patch>, section: string, line: string) returns (at: Option<nat>)
    ensures at == FirstAt(patches, Applies(section, line))
  {
    for i := 0 to |patches|
      invariant forall k :: 0 <= k < i ==> !Applies(section, line)(patches[k])
    {
      if section == patches[i].section && Names(line, patches[i].key) {
        return Some(i);
      }
    }
    return None;
  }

  ghost predicate AppliedIs(patches: seq<Patch>, lines: seq<string>, applied: set<(string, string)>) {
    forall i :: 0 <= i < |patches| ==>
      ((patches[i].section, patches[i].key) in applied <==> !Absent(lines)(patches[i]))
  }

  lemma {:induction false} ForceAllAppend(patches: seq<Patch>, lines: seq<string>, line: string, section: string)
    ensures ForceAll(patches, lines + [line], section)
         == ForceAll(patches, lines, section) + [Forced(patches, SectionAt(lines, section), line)]
  {
    if lines == [] {
      assert [] + [line] == [line] && [line][1..] == [];
    } else {
      assert (lines + [line])[1..] == lines[1..] + [line];
      ForceAllAppend(patches, lines[1..], line, After(section, lines[0]));
    }
  }

  lemma LookupAppend(lines: seq<string>, line: string, of: string, key: string)
    ensures Lookup(lines + [line], of, key)
         == Lookup(lines, of, key)
            + if !IsHeader(line) && SectionAt(lines, "") == of && Names(line, key) then [line] else []
  {
    OccurrencesAppend(lines, [line], "", of, key);
    assert [line][1..] == [];
  }

  lemma {:induction false} SectionAtAppend(lines: seq<string>, line: string, section: string)
    ensures SectionAt(lines + [line], section) == After(SectionAt(lines, section), line)
  {
    if lines == [] {
      assert [] + [line] == [line] && [line][1..] == [];
    } else {
      assert (lines + [line])[1..] == lines[1..] + [line];
      SectionAtAppend(lines[1..], line, After(section, lines[0]));
    }
  }

  /** One more line read: the setting it matches, if any, has now been applied. */
  lemma OneMoreApplied(patches: seq<Patch>, lines: seq<string>, line: string, applied: set<(string, string)>)
    requires GoodTable(patches) && AppliedIs(patches, lines, applied)
    ensures var at := FirstAt(patches, Applies(SectionAt(lines, ""), line));
            AppliedIs(patches, lines + [line],
                      if !IsHeader(line) && at.Some?
                      then applied + {(patches[at.value].section, patches[at.value].key)}
                      else applied)
  {
    var section := SectionAt(lines, "");
    var at := FirstAt(patches, Applies(section, line));
    forall i | 0 <= i < |patches|
      ensures !Absent(lines + [line])(patches[i]) <==>
                !Absent(lines)(patches[i]) || (!IsHeader(line) && at.Some? && at.value == i)
    {
      LookupAppend(lines, line, patches[i].section, patches[i].key);
      if !IsHeader(line) && Applies(section, line)(patches[i]) {
        NamesOne(line, patches[i].key, patches[at.value].key);
      }
    }
  }

  /** What becomes of the next line, the section it leaves the loop in, and what has been met by then. */
  method ForceLine(patches: seq<Patch>, ghost before: seq<string>, section: string, line: string,
                   applied: set<(string, string)>)
    returns (newLine: string, next: string, met: set<(string, string)>)
    requires GoodTable(patches) && section == SectionAt(before, "") && AppliedIs(patches, before, applied)
    ensures newLine == Forced(patches, section, line) && next == After(section, line)
    ensures AppliedIs(patches, before + [line], met)
  {
    OneMoreApplied(patches, before, line, applied);
    newLine, next, met := line, section, applied;
    if IsHeader(line) {
      next := SectionName(line);
    } else {
      var at := Match(patches, section, line);
      if at.Some? {
        newLine := LineOf(patches[at.value]);
        met := applied + {(patches[at.value].section, patches[at.value].key)};
      }
    }
  }

  /** Where the loop over the lines stands once `before` has been read. */
  ghost predicate Progress(patches: seq<Patch>, before: seq<string>, section: string, newLines: seq<string>,
                           applied: set<(string, string)>)
  {
    section == SectionAt(before, "") && newLines == ForceAll(patches, before, "") && AppliedIs(patches, before, applied)
  }

  /** Force every line that sets something forced; also which settings were met. */
  method ForceLines(patches: seq<Patch>, lines: seq<string>)
    returns (newLines: seq<string>, applied: set<(string, string)>)
    requires GoodTable(patches)
    ensures newLines == ForceAll(patches, lines, "") && AppliedIs(patches, lines, applied)
  {
    var section := "";
    newLines, applied := [], {};
    for n := 0 to |lines|
      invariant Progress(patches, lines[..n], section, newLines, applied)
    {
      assert lines[..n + 1] == lines[..n] + [lines[n]];
      section, newLines, applied := ForceNext(patches, lines[..n], section, lines[n], newLines, applied);
    }
    assert lines[..|lines|] == lines;
  }

  method ForceNext(patches: seq<Patch>, ghost before: seq<string>, section: string, line: string, newLines: seq<string>,
                   applied: set<(string, string)>)
    returns (next: string, more: seq<string>, met: set<(string, string)>)
    requires GoodTable(patches) && Progress(patches, before, section, newLines, applied)
    ensures Progress(patches, before + [line], next, more, met)
  {
    ForceAllAppend(patches, before, line, "");
    SectionAtAppend(before, line, "");
    var newLine;
    newLine, next, met := ForceLine(patches, before, section, line, applied);
    more := newLines + [newLine];
  }

  method MissingFrom(patches: seq<Patch>, ghost lines: seq<string>, applied: set<(string, string)>)
    returns (missing: seq<Patch>)
    requires AppliedIs(patches, lines, applied)
    ensures missing == Where(patches, Absent(lines))
  {
    missing := [];
    for i := 0 to |patches|
      invariant missing == Where(patches[..i], Absent(lines))
    {
      assert patches[..i + 1][..i] == patches[..i];
      if (patches[i].section, patches[i].key) !in applied {
        missing := missing + [patches[i]];
      }
    }
    assert patches[..|patches|] == patches;
  }

  /** Copy the lines, putting the new one under the first header of its section. */
  method InsertUnder(lines: seq<string>, p: Patch) returns (out: seq<string>)
    requires FirstAt(lines, IsHeaderOf(p.section)).Some?
    ensures out == Insert(lines, p)
  {
    ghost var at := FirstAt(lines, IsHeaderOf(p.section)).value;
    out := [];
    var inserted := false;
    for i := 0 to |lines|
      invariant inserted == (at < i)
      invariant out == if at < i then lines[..at + 1] + [LineOf(p)] + lines[at + 1..i] else lines[..i]
    {
      assert lines[..i + 1] == lines[..i] + [lines[i]];
      assert at < i ==> lines[at + 1..i + 1] == lines[at + 1..i] + [lines[i]];
      out := out + [lines[i]];
      if !inserted && Strip(lines[i]) == HeaderOf(p.section) {
        out := out + [LineOf(p)];
        inserted := true;
        assert lines[at + 1..at + 1] == [];
      }
    }
  }

  lemma HeaderIff(line: string, section: string)
    ensures IsHeaderOf(section)(line) <==> IsHeader(line) && SectionName(line) == section
  {
    var s := Strip(line);
    if IsHeader(line) {
      assert s == [s[0]] + s[1..|s| - 1] + [s[|s| - 1]];
    }
    assert HeaderOf(section)[1..|HeaderOf(section)| - 1] == section;
  }

  /** The sections the file has a header for. */
  ghost predicate PresentIs(lines: seq<string>, present: set<string>) {
    forall section :: section in present <==> FirstAt(lines, IsHeaderOf(section)).Some?
  }

  method SectionsOf(lines: seq<string>) returns (present: set<string>)
    ensures PresentIs(lines, present)
  {
    present := {};
    for i := 0 to |lines|
      invariant PresentIs(lines[..i], present)
    {
      var line := lines[i];
      assert lines[..i + 1][..i] == lines[..i];
      forall section ensures IsHeaderOf(section)(line) <==> IsHeader(line) && SectionName(line) == section {
        HeaderIff(line, section);
      }
      if IsHeader(line) {
        present := present + {SectionName(line)};
      }
    }
    assert lines[..|lines|] == lines;
  }

  /** Adding a setting adds at most its own section. */
  lemma InsertPresent(lines: seq<string>, p: Patch, present: set<string>)
    requires GoodPatch(p) && PresentIs(lines, present)
    ensures PresentIs(Insert(lines, p), present + {p.section})
  {
    var r := Inserted(lines, p);
    InsertIs(lines, p);
    InsertedSection(lines, p);
    forall section
      ensures section in present + {p.section} <==> FirstAt(Insert(lines, p), IsHeaderOf(section)).Some?
    {
      HeaderIff(LineOf(p), section);
      HeaderIff(HeaderOf(p.section), section);
      BlankNamesNothing("");
      HeaderIff("", section);
      HeaderNames(p.section);
      FoundSplit(r.0, r.1 + r.2, IsHeaderOf(section));
      FoundSplit(r.1, r.2, IsHeaderOf(section));
      FoundSplit(r.0, r.2, IsHeaderOf(section));
    }
  }

  lemma FoundSplit(a: seq<string>, b: seq<string>, p: string -> bool)
    ensures FirstAt(a + b, p).Some? <==> FirstAt(a, p).Some? || FirstAt(b, p).Some?
  {
    var i, j := FirstAt(a, p), FirstAt(b, p);
    assert i.Some? ==> p((a + b)[i.value]);
    assert j.Some? ==> p((a + b)[|a| + j.value]);
  }

  method AddMissing(lines: seq<string>, p: Patch, present: set<string>)
    returns (out: seq<string>, sections: set<string>)
    requires GoodPatch(p) && PresentIs(lines, present)
    ensures out == Insert(lines, p) && PresentIs(out, sections)
  {
    InsertPresent(lines, p, present);
    if p.section in present {
      assert present + {p.section} == present;
      out := InsertUnder(lines, p);
      sections := present;
    } else {
      out := lines + ["", HeaderOf(p.section), LineOf(p)];
      sections := present + {p.section};
    }
  }

  method AddAll(lines: seq<string>, missing: seq<Patch>) returns (out: seq<string>)
    requires forall i :: 0 <= i < |missing| ==> GoodPatch(missing[i])
    ensures out == InsertAll(lines, missing)
  {
    out := lines;
    if missing == [] {
      return;
    }
    var present := SectionsOf(lines);
    for i := 0 to |missing|
      invariant PresentIs(out, present)
      invariant InsertAll(out, missing[i..]) == InsertAll(lines, missing)
    {
      assert missing[i..][0] == missing[i] && missing[i..][1..] == missing[i + 1..];
      out, present := AddMissing(out, missing[i], present);
    }
  }

  /** Rewrite the file's lines: force what is there, then add what is missing. */
  method PatchIni(patches: seq<Patch>, lines: seq<string>) returns (newLines: seq<string>)
    requires GoodTable(patches)
    ensures newLines == Patched(patches, lines)
  {
    var applied;
    newLines, applied := ForceLines(patches, lines);
    var missing := MissingFrom(patches, lines, applied);
    WhereIsTable(patches, Absent(lines));
    newLines := AddAll(newLines, missing);
  }
}
