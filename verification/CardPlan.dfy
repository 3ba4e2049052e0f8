/** DuckStation's own check on an import plan, and how it divides the work with the shared one. */
module CardPlan {
  import opened Conflicts
  import opened Lists
  import opened Options
  import opened Paths
  import IniPatch
  import Pre = Preflight

  const CARDS := "memcards"
  const STATES := "savestates"
  const PINNED_PATH: Path := [CARDS, IniPatch.PINNED_CARD]
  const PINNED := CARDS + [SEP] + IniPatch.PINNED_CARD

  // ---- Where DuckStation puts members ----

  const MEMCARD_BYTES := 131072
  const RAW_SUFFIXES := {".mcd", ".mcr", ".mc", ".srm"}
  const CONVERTIBLE_SUFFIXES := {".gme", ".psm", ".ps", ".ddf", ".mem", ".vgs", ".psx"}
  const OWNER_SUFFIX := ".rom"
  const UNTRUSTED_SUFFIX := ".untrusted"

  predicate EndsWith(s: string, tail: string) { |tail| <= |s| && s[|s| - |tail|..] == tail }

  /** Place a `save` or `memcard` member given the suffix of its only component, lower-cased. */
  function PlaceCard(parts: Path, size: nat, suffix: string): Pre.Answer {
    if |parts| != 1 then Pre.Refuse(Pre.UnrecognisedLayout)
    else if EndsWith(parts[0], OWNER_SUFFIX) || EndsWith(parts[0], UNTRUSTED_SUFFIX) then
      Pre.Place([STATES, parts[0]], [])
    else if suffix in RAW_SUFFIXES then
      if size != MEMCARD_BYTES then Pre.Refuse(Pre.UnrecognisedLayout) else Pre.Place(PINNED_PATH, [])
    else if suffix in CONVERTIBLE_SUFFIXES then Pre.Refuse(Pre.FromHook("needs_conversion"))
    else Pre.Refuse(Pre.UnrecognisedLayout)
  }

  lemma EndsWithMeans(s: string, tail: string)
    ensures EndsWith(s, tail) <==> exists front :: s == front + tail
  {
    if EndsWith(s, tail) {
      assert s == s[..|s| - |tail|] + tail;
    }
    if front :| s == front + tail {
      assert s[|front|..] == tail;
    }
  }

  /** A member is taken as one file: an owner's mark or an untrusted one among the states, and a raw image of a
      card's exact size as the pinned card. What is refused is told to be converted when it is a card of
      another tool, and is not recognised otherwise. */
  lemma PlacementMeans(parts: Path, size: nat, suffix: string)
    ensures var a := PlaceCard(parts, size, suffix);
            var marked := && |parts| == 1
                          && exists front :: parts[0] == front + ".rom" || parts[0] == front + ".untrusted";
            && (a.Place? <==>
                  |parts| == 1 && (marked || (suffix in {".mcd", ".mcr", ".mc", ".srm"} && size == 128 * 1024)))
            && (marked ==> a == Pre.Place(["savestates", parts[0]], []))
            && (a.Place? && !marked ==> a == Pre.Place(PINNED_PATH, []))
            && (a.Refuse? ==>
                  a.reason == if |parts| == 1 && suffix in {".gme", ".psm", ".ps", ".ddf", ".mem", ".vgs", ".psx"}
                              then Pre.FromHook("needs_conversion") else Pre.UnrecognisedLayout)
  {
    if |parts| == 1 {
      EndsWithMeans(parts[0], OWNER_SUFFIX);
      EndsWithMeans(parts[0], UNTRUSTED_SUFFIX);
    }
  }

  // ---- Its check on the plan ----

  predicate IsCard(p: Placement) { PosixText(p.dest) == PINNED }

  function CardTest(): Placement -> bool { (p: Placement) => IsCard(p) }

  function Cards(plan: seq<Placement>): seq<Placement> { Where(plan, CardTest()) }

  function Archived(archive: set<string>): set<string> { set n | n in archive :: AsPosix(n) }

  /** The archive's own files under the card directory. */
  function Carried(archive: set<string>): set<string> { set rel | rel in Archived(archive) && CARDS + [SEP] <= rel }

  /** The pinned card, a path below it, or a path it needs as a directory. */
  predicate Meets(rel: string) { rel == PINNED || Below(rel, PINNED) || Below(PINNED, rel) }

  /** A clash the shared check has refused already. */
  predicate Clashes(plan: seq<Placement>, archive: set<string>) {
    |Cards(plan)| > 1 || exists rel :: rel in Archived(archive) && Meets(rel)
  }

  function ValidateImportPlan(plan: seq<Placement>, archive: set<string>): seq<Pre.Refusal> {
    if Carried(archive) == {} || Clashes(plan, archive) then []
    else
      seq(|Cards(plan)|, i requires 0 <= i < |Cards(plan)| =>
        Pre.Refusal(Pre.DestinationConflict, Some(Cards(plan)[i].member)))
  }

  // ---- What DuckStation's placements are like ----

  predicate InStates(p: Path) { p != [] && p[0] == STATES }

  /** A card is the pinned file alone; everything else lands among the states. */
  ghost predicate Fitting(p: Placement) {
    if IsCard(p) then p.sidecars == []
    else InStates(p.dest) && forall k :: 0 <= k < |p.sidecars| ==> InStates(p.sidecars[k].path)
  }

  ghost predicate IsPlan(plan: seq<Placement>, archive: set<string>) {
    && (forall i :: 0 <= i < |plan| ==> Fitting(plan[i]) && plan[i].member !in archive)
    && (forall i, j :: 0 <= i < j < |plan| ==> plan[i].member != plan[j].member)
  }

  lemma PlacedCardsFit(name: string, parts: Path, size: nat, suffix: string)
    requires PlaceCard(parts, size, suffix).Place?
    ensures Fitting(Placement(name, PlaceCard(parts, size, suffix).dest, PlaceCard(parts, size, suffix).sidecars))
    ensures IsCard(Placement(name, PlaceCard(parts, size, suffix).dest, [])) <==>
              suffix in RAW_SUFFIXES && size == MEMCARD_BYTES
              && !EndsWith(parts[0], OWNER_SUFFIX) && !EndsWith(parts[0], UNTRUSTED_SUFFIX)
  {
    PinnedText();
    if PlaceCard(parts, size, suffix).dest == [STATES, parts[0]] { StatesText([STATES, parts[0]]); }
  }

  lemma JoinTwo(a: string, b: string)
    ensures Join([a, b]) == a + [SEP] + b
  {
    assert [a, b][1..] == [b];
  }

  lemma PinnedText()
    ensures PosixText(PINNED_PATH) == PINNED
  {
    JoinTwo(CARDS, IniPatch.PINNED_CARD);
  }

  lemma StatesText(p: Path)
    requires InStates(p)
    ensures PosixText(p) != [] && PosixText(p)[0] == 's'
  {}

  // ---- The shared check, seen from an imported card ----

  function Identity(): Fold { (s: string) => s }

  /** Where a file of the restore can have come from. */
  lemma FilesAre(plan: seq<Placement>, archive: set<string>, key: string, owner: string)
    requires IsPlan(plan, archive) && Lands(plan, archive, Identity(), key, owner)
    ensures || (owner in archive && key == AsPosix(owner))
            || (owner !in archive && key != [] && key[0] == 's')
            || (key == PINNED && exists i :: 0 <= i < |plan| && plan[i].member == owner && IsCard(plan[i]))
  {
    if !(owner in archive && key == Identity()(AsPosix(owner))) {
      var i :| 0 <= i < |plan| && plan[i].member == owner && Places(plan[i], Identity(), key);
      var p := plan[i];
      assert Fitting(p);
      if !IsCard(p) {
        StatesText(p.dest);
        forall k | 0 <= k < |p.sidecars|
          ensures PosixText(p.sidecars[k].path) != [] && PosixText(p.sidecars[k].path)[0] == 's'
        {
          StatesText(p.sidecars[k].path);
        }
      }
    }
  }

  lemma CardLands(plan: seq<Placement>, archive: set<string>, i: nat)
    requires i < |plan| && IsCard(plan[i])
    ensures Lands(plan, archive, Identity(), PINNED, plan[i].member)
  {
    assert Places(plan[i], Identity(), PINNED);
  }

  /** An archive file at, below or above the pinned card. */
  ghost predicate InTheWay(archive: set<string>, n: string) {
    n in archive && Meets(AsPosix(n))
  }

  lemma WaysClash(plan: seq<Placement>, archive: set<string>)
    ensures Clashes(plan, archive) <==> |Cards(plan)| > 1 || exists n :: InTheWay(archive, n)
  {
    if n :| InTheWay(archive, n) {
      assert AsPosix(n) in Archived(archive);
    }
    if rel :| rel in Archived(archive) && Meets(rel) {
      var n :| n in archive && AsPosix(n) == rel;
      assert InTheWay(archive, n);
    }
  }

  lemma TwoCards(plan: seq<Placement>, i: nat)
    requires i < |plan| && IsCard(plan[i])
    ensures |Cards(plan)| >= 1
    ensures |Cards(plan)| > 1 <==> exists j :: 0 <= j < |plan| && j != i && IsCard(plan[j])
  {
    if j :| 0 <= j < |plan| && j != i && IsCard(plan[j]) {
      WherePair(plan, CardTest(), if i < j then i else j, if i < j then j else i);
    } else {
      WhereLone(plan, CardTest(), i);
    }
  }

  lemma StatesApart(key: string)
    requires key != [] && key[0] == 's'
    ensures !Meets(key)
  {
    assert CARDS[0] == 'm' && PINNED[0] == CARDS[0];
    assert (PINNED + [SEP])[0] == 'm' && (key + [SEP])[0] == 's';
  }

  /** A second imported card, or an archive file in the way, is what the shared check refuses a card for. */
  lemma SharedFinds(plan: seq<Placement>, archive: set<string>, i: nat)
    requires IsPlan(plan, archive) && i < |plan| && IsCard(plan[i]) && Clashes(plan, archive)
    ensures SharesFile(plan, archive, Identity(), plan[i].member)
              || CrossesFile(plan, archive, Identity(), plan[i].member)
  {
    var m := plan[i].member;
    CardLands(plan, archive, i);
    WaysClash(plan, archive);
    TwoCards(plan, i);
    if |Cards(plan)| > 1 {
      var j :| 0 <= j < |plan| && j != i && IsCard(plan[j]);
      CardLands(plan, archive, j);
      MeetingRefused(plan, archive, Identity(), m, PINNED, PINNED, plan[j].member);
    } else {
      var n :| InTheWay(archive, n);
      MeetingRefused(plan, archive, Identity(), m, PINNED, AsPosix(n), n);
    }
  }

  /** Another member's file at, below or above one of its own makes the shared check refuse a member. */
  lemma MeetingRefused(plan: seq<Placement>, archive: set<string>, fold: Fold, m: string, mine: string, key: string,
                       owner: string)
    requires Lands(plan, archive, fold, mine, m) && Lands(plan, archive, fold, key, owner) && owner != m
    requires key == mine || Below(key, mine) || Below(mine, key)
    ensures SharesFile(plan, archive, fold, m) || CrossesFile(plan, archive, fold, m)
  {}

  /** Any file that meets the pinned card is a card itself or the archive's. */
  lemma MeetsMeans(plan: seq<Placement>, archive: set<string>, key: string, owner: string)
    requires IsPlan(plan, archive) && Lands(plan, archive, Identity(), key, owner) && Meets(key)
    ensures || InTheWay(archive, owner)
            || (key == PINNED && exists i :: 0 <= i < |plan| && plan[i].member == owner && IsCard(plan[i]))
  {
    FilesAre(plan, archive, key, owner);
    if key != [] && key[0] == 's' { StatesApart(key); }
  }

  lemma MeetsClash(plan: seq<Placement>, archive: set<string>, i: nat, key: string, owner: string)
    requires IsPlan(plan, archive) && i < |plan| && IsCard(plan[i])
    requires Lands(plan, archive, Identity(), key, owner) && Meets(key)
    requires key != PINNED || owner != plan[i].member
    ensures Clashes(plan, archive)
  {
    MeetsMeans(plan, archive, key, owner);
    WaysClash(plan, archive);
    TwoCards(plan, i);
    if key != PINNED { CardKeys(plan, archive, key, owner); }
  }

  /** A file meeting the pinned card at another path is the archive's. */
  lemma CardKeys(plan: seq<Placement>, archive: set<string>, key: string, owner: string)
    requires IsPlan(plan, archive) && Lands(plan, archive, Identity(), key, owner) && Meets(key) && key != PINNED
    ensures InTheWay(archive, owner)
  {
    MeetsMeans(plan, archive, key, owner);
  }

  lemma SharedFindsOnly(plan: seq<Placement>, archive: set<string>, i: nat)
    requires IsPlan(plan, archive) && i < |plan| && IsCard(plan[i])
    requires SharesFile(plan, archive, Identity(), plan[i].member)
              || CrossesFile(plan, archive, Identity(), plan[i].member)
    ensures Clashes(plan, archive)
  {
    var m := plan[i].member;
    CardKey(plan, archive, i);
    var key, owner := OtherSide(plan, archive, Identity(), m, PINNED);
    MeetsClash(plan, archive, i, key, owner);
  }

  /** What the shared check found for a member whose only key is `mine`. */
  lemma OtherSide(plan: seq<Placement>, archive: set<string>, fold: Fold, m: string, mine: string)
    returns (key: string, owner: string)
    requires forall k :: Lands(plan, archive, fold, k, m) ==> k == mine
    requires SharesFile(plan, archive, fold, m) || CrossesFile(plan, archive, fold, m)
    ensures Lands(plan, archive, fold, key, owner) && (key == mine || Below(key, mine) || Below(mine, key))
    ensures key != mine || owner != m
  {
    if SharesFile(plan, archive, fold, m) {
      var k, other :| Lands(plan, archive, fold, k, m) && Lands(plan, archive, fold, k, other) && other != m;
      key, owner := k, other;
    } else {
      var k, other, o :| Lands(plan, archive, fold, k, m) && Lands(plan, archive, fold, other, o)
          && (Below(k, other) || Below(other, k));
      key, owner := other, o;
    }
  }

  /** An imported card's only file is the pinned card. */
  lemma CardKey(plan: seq<Placement>, archive: set<string>, i: nat)
    requires IsPlan(plan, archive) && i < |plan| && IsCard(plan[i])
    ensures forall key :: Lands(plan, archive, Identity(), key, plan[i].member) ==> key == PINNED
  {
    forall key | Lands(plan, archive, Identity(), key, plan[i].member) ensures key == PINNED {
      var j :| 0 <= j < |plan| && plan[j].member == plan[i].member && Places(plan[j], Identity(), key);
      assert j == i && Fitting(plan[i]);
    }
  }

  // ---- The division of labour ----

  ghost predicate SharedRefuses(plan: seq<Placement>, archive: set<string>, m: string) {
    m !in archive && (SharesFile(plan, archive, Identity(), m) || CrossesFile(plan, archive, Identity(), m))
  }

  ghost predicate OwnRefuses(plan: seq<Placement>, archive: set<string>, m: string) {
    Pre.Refusal(Pre.DestinationConflict, Some(m)) in ValidateImportPlan(plan, archive)
  }

  /** An imported card is refused exactly when the archive carries any card file or something is in
      its way, and then by exactly one of the two checks: never neither, never both. */
  lemma ExactlyOneRefusal(plan: seq<Placement>, archive: set<string>, i: nat)
    requires IsPlan(plan, archive) && i < |plan| && IsCard(plan[i])
    ensures var m := plan[i].member;
            && !(SharedRefuses(plan, archive, m) && OwnRefuses(plan, archive, m))
            && (SharedRefuses(plan, archive, m) || OwnRefuses(plan, archive, m) <==>
                  Carried(archive) != {} || Clashes(plan, archive))
            && |ValidateImportPlan(plan, archive)| <= 1
  {
    var m := plan[i].member;
    TwoCards(plan, i);
    WhereHolds(plan, CardTest());
    if Clashes(plan, archive) {
      SharedFinds(plan, archive, i);
    } else if SharedRefuses(plan, archive, m) {
      SharedFindsOnly(plan, archive, i);
    } else {
      assert plan[i] in Cards(plan) by { assert CardTest()(plan[i]); }
      var k :| 0 <= k < |Cards(plan)| && Cards(plan)[k] == plan[i];
      if Carried(archive) != {} {
        assert ValidateImportPlan(plan, archive)[k] == Pre.Refusal(Pre.DestinationConflict, Some(m));
      }
    }
  }

  /** No accepted import puts a card in the slot beside one the archive carries. */
  lemma NoCardIsLostSilently(e: Pre.Emulator, c: Pre.Ctx, plan: seq<Placement>, i: nat)
    requires Pre.PlanOk(e, c, plan) && e.fold == Identity() && e.planHook(plan) == ValidateImportPlan(plan, c.archive)
    requires IsPlan(plan, c.archive) && i < |plan| && IsCard(plan[i])
    ensures Carried(c.archive) == {} && !Clashes(plan, c.archive)
    ensures forall n :: n in c.archive ==> !(CARDS + "/" <= AsPosix(n))
    ensures forall j :: 0 <= j < |plan| && IsCard(plan[j]) ==> j == i
  {
    ExactlyOneRefusal(plan, c.archive, i);
    TwoCards(plan, i);
    forall n | n in c.archive ensures !(CARDS + "/" <= AsPosix(n)) {
      assert AsPosix(n) in Archived(c.archive) && CARDS + "/" == CARDS + [SEP];
      assert AsPosix(n) !in Carried(c.archive);
    }
  }
}
