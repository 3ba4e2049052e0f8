/** Capturing a whole card (`build_archive`), and why pushing it back reproduces it. */
module CardCapture {
  import opened CardSwap
  import opened Options
  import opened Paths

  /** `Abandoned` is an error that leaves `build_archive` unhandled. */
  datatype Built = NoCard | Failed | Abandoned | Captured(members: seq<Member>)

  /** How zipping one file ends: done, with an error that is handled, or, when its time is none a zip
      can hold, with one that is not. */
  datatype Zipping = Zipped | Unreadable | Undated

  /** What a card's files answer when asked for their size, and when they are zipped. */
  datatype Disk = Disk(sizable: Path -> bool, zips: Path -> Zipping)

  /** `listing` names every file of the card once, in the order they are zipped. */
  ghost predicate ListsCard(listing: seq<Path>, card: Card) {
    && (forall i :: 0 <= i < |listing| ==> listing[i] in card)
    && (forall p :: p in card ==> p in listing)
    && (forall i, j :: 0 <= i < j < |listing| ==> listing[i] != listing[j])
  }

  predicate IsBlankMarker(card: Card, d: Disk, marker: Option<string>, p: Path)
    requires p in card
  {
    marker.Some? && p == Parts(marker.value) && d.sizable(p) && card[p] == []
  }

  function Members(card: Card, listing: seq<Path>): seq<Member>
    requires InCard(listing, card)
  {
    seq(|listing|, i requires 0 <= i < |listing| => MemberOf(listing[i], card[listing[i]]))
  }

  function SizeOf(card: Card, d: Disk, listing: seq<Path>): nat
    requires InCard(listing, card)
  {
    if listing == [] then 0
    else
      var n := |listing| - 1;
      SizeOf(card, d, listing[..n]) + if d.sizable(listing[n]) then |card[listing[n]]| else 0
  }

  /** More than the scaffolding the broker itself puts down. */
  ghost predicate IsReal(card: Card, d: Disk, marker: Option<string>) {
    exists p :: p in card && !IsBlankMarker(card, d, marker, p)
  }

  /** A card is no more than scaffolding exactly when it is empty or holds the marker alone, with nothing in it. */
  lemma RealMeans(card: Card, d: Disk, marker: Option<string>)
    ensures !IsReal(card, d, marker) <==>
              || card == map[]
              || (marker.Some? && card == map[Parts(marker.value) := []] && d.sizable(Parts(marker.value)))
  {
    if !IsReal(card, d, marker) && card != map[] {
      var p :| p in card;
      assert forall q :: q in card ==> IsBlankMarker(card, d, marker, q);
      assert card.Keys == {Parts(marker.value)};
    }
  }

  predicate InCard(listing: seq<Path>, card: Card) { forall i :: 0 <= i < |listing| ==> listing[i] in card }

  method AllBlank(card: Card, listing: seq<Path>, marker: Option<string>, d: Disk) returns (blank: bool)
    requires ListsCard(listing, card)
    ensures blank <==> !IsReal(card, d, marker)
  {
    for i := 0 to |listing|
      invariant forall k :: 0 <= k < i ==> IsBlankMarker(card, d, marker, listing[k])
    {
      if !IsBlankMarker(card, d, marker, listing[i]) {
        return false;
      }
    }
    forall p | p in card ensures IsBlankMarker(card, d, marker, p) {
      var k :| 0 <= k < |listing| && listing[k] == p;
    }
    return true;
  }

  method Total(card: Card, listing: seq<Path>, d: Disk) returns (total: nat)
    requires InCard(listing, card)
    ensures total == SizeOf(card, d, listing)
  {
    total := 0;
    for i := 0 to |listing|
      invariant total == SizeOf(card, d, listing[..i])
    {
      assert listing[..i + 1][..i] == listing[..i];
      if d.sizable(listing[i]) {
        total := total + |card[listing[i]]|;
      }
    }
    assert listing[..|listing|] == listing;
  }

  /** A card's size is that of its files, but for those whose size cannot be told. */
  lemma {:induction false} SizesAdd(card: Card, d: Disk, a: seq<Path>, p: Path, b: seq<Path>)
    requires InCard(a, card) && p in card && InCard(b, card)
    ensures InCard(a + [p] + b, card) && InCard(a + b, card) && SizeOf(card, d, []) == 0
    ensures SizeOf(card, d, a + [p] + b) == SizeOf(card, d, a + b) + if d.sizable(p) then |card[p]| else 0
    decreases |b|
  {
    if b == [] {
      assert a + [p] + b == a + [p] && a + b == a && (a + [p])[..|a|] == a;
    } else {
      var n := |b| - 1;
      SizesAdd(card, d, a, p, b[..n]);
      assert (a + [p] + b)[..|a| + |b|] == a + [p] + b[..n] && (a + b)[..|a| + n] == a + b[..n];
    }
  }

  ghost predicate Readable(card: Card, d: Disk) { forall p :: p in card ==> d.zips(p).Zipped? }

  predicate AllZipped(listing: seq<Path>, d: Disk) { forall i :: 0 <= i < |listing| ==> d.zips(listing[i]).Zipped? }

  /** The first file that cannot be zipped is one with no time a zip can hold. */
  ghost predicate FirstUndated(listing: seq<Path>, d: Disk) {
    exists i :: 0 <= i < |listing| && d.zips(listing[i]).Undated? && AllZipped(listing[..i], d)
  }

  /** Zip every file, up to the first that cannot be. */
  method Collect(card: Card, listing: seq<Path>, d: Disk) returns (b: Built)
    requires ListsCard(listing, card)
    ensures b == if Readable(card, d) then Captured(Members(card, listing))
                 else if FirstUndated(listing, d) then Abandoned else Failed
  {
    var ms := [];
    for i := 0 to |listing|
      invariant ms == Members(card, listing)[..i] && AllZipped(listing[..i], d)
    {
      if !d.zips(listing[i]).Zipped? {
        assert forall j :: i < j < |listing| ==> listing[..j][i] == listing[i];
        return if d.zips(listing[i]).Undated? then Abandoned else Failed;
      }
      ms := ms + [MemberOf(listing[i], card[listing[i]])];
    }
    assert listing[..|listing|] == listing;
    forall p | p in card ensures d.zips(p).Zipped? {
      var k :| 0 <= k < |listing| && listing[k] == p;
    }
    assert ms == Members(card, listing);
    return Captured(ms);
  }

  /** Capture the card whole or not at all: a card that is only scaffolding counts as none, and one
      file that cannot be zipped refuses the lot, or has the whole call raise. */
  method BuildArchive(slot: Option<Slot>, listing: seq<Path>, marker: Option<string>, maxBytes: nat, d: Disk)
    returns (b: Built)
    requires slot.Some? && slot.value.Folder? ==> ListsCard(listing, slot.value.card)
    ensures b.NoCard? <==> slot.None? || (slot.value.Folder? && !IsReal(slot.value.card, d, marker))
    ensures b.Captured? <==>
              && slot.Some? && slot.value.Folder? && IsReal(slot.value.card, d, marker)
              && SizeOf(slot.value.card, d, listing) <= maxBytes && Readable(slot.value.card, d)
    ensures b.Captured? ==> b.members == Members(slot.value.card, listing)
    ensures b.Abandoned? <==>
              && slot.Some? && slot.value.Folder? && IsReal(slot.value.card, d, marker)
              && SizeOf(slot.value.card, d, listing) <= maxBytes && FirstUndated(listing, d)
  {
    if slot.None? {
      return NoCard;
    }
    if slot.value.FileCard? {
      return Failed;
    }
    var card := slot.value.card;
    var blank := AllBlank(card, listing, marker, d);
    if blank {
      return NoCard;
    }
    var total := Total(card, listing, d);
    if total > maxBytes {
      return Failed;
    }
    b := Collect(card, listing, d);
    assert FirstUndated(listing, d) ==> !Readable(card, d);
  }

  /** One file whose time is none a zip can hold makes the capture of a sound card raise. */
  method UndatedFileRaises() returns (card: Card, b: Built)
    ensures Sound(card) && b == Abandoned
  {
    var p: Path := ["a"];
    card := map[p := [7]];
    var d := Disk(_ => true, _ => Undated);
    assert Plain("a") && [p][..0] == [] && card[p] == [7];
    assert p in card && !IsBlankMarker(card, d, None, p);
    assert d.zips([p][0]).Undated?;
    b := BuildArchive(Some(Folder(card)), [p], None, 1, d);
  }

  /** A card as a directory can hold it: real file names, no file inside another. */
  ghost predicate Sound(card: Card) {
    && (forall p :: p in card ==> p != [] && InnerPath(p))
    && (forall p, q :: p in card && q in card ==> !Nested(p, q))
  }

  lemma NamesAreOwn(card: Card, listing: seq<Path>)
    requires Sound(card) && ListsCard(listing, card)
    ensures forall i :: 0 <= i < |listing| ==> Parts(Join(listing[i])) == listing[i]
    ensures forall i :: 0 <= i < |listing| ==> !Leaves(Join(listing[i]))
  {
    forall i | 0 <= i < |listing| ensures Parts(Join(listing[i])) == listing[i] && !Leaves(Join(listing[i])) {
      var p := listing[i];
      PartsOfJoin(p);
      assert p[0] in p;
    }
  }

  /** `base` with the listed files of the card laid over it. */
  function Overlay(card: Card, listing: seq<Path>, base: Card): (r: Card)
    requires InCard(listing, card)
    ensures forall q :: q in r <==> q in base || q in listing
    ensures forall q :: q in r ==> if q in listing then r[q] == card[q] else r[q] == base[q]
  {
    if listing == [] then base
    else
      var n := |listing| - 1;
      assert listing == listing[..n] + [listing[n]];
      Overlay(card, listing[..n], base)[listing[n] := card[listing[n]]]
  }

  ghost predicate NothingNested(base: Card, card: Card) { forall q, p :: q in base && p in card ==> !Nested(q, p) }

  lemma OverlayFits(card: Card, listing: seq<Path>, base: Card, p: Path)
    requires Sound(card) && InCard(listing, card) && NothingNested(base, card) && p in card
    ensures Fits(Overlay(card, listing, base), p)
  {
    forall q | q in Overlay(card, listing, base) ensures !Nested(q, p) {
      if q in listing { assert q in card; }
    }
  }

  lemma {:induction false} LaidIs(card: Card, listing: seq<Path>, dests: map<string, Path>, base: Card)
    requires Sound(card) && InCard(listing, card) && NothingNested(base, card)
    requires forall i :: 0 <= i < |listing| ==> Join(listing[i]) in dests && dests[Join(listing[i])] == listing[i]
    ensures Lay(Members(card, listing), dests, base) == Some(Overlay(card, listing, base))
  {
    if listing == [] {
    } else {
      var n := |listing| - 1;
      LaidIs(card, listing[..n], dests, base);
      assert Members(card, listing)[..n] == Members(card, listing[..n]);
      OverlayFits(card, listing[..n], base, listing[n]);
    }
  }

  lemma OverlayAll(card: Card, listing: seq<Path>, base: Card)
    requires ListsCard(listing, card)
    ensures Overlay(card, listing, base) == base + card
  {
    forall p | p in listing ensures p in card {
      var k :| 0 <= k < |listing| && listing[k] == p;
    }
  }

  lemma OwnPathsAre(card: Card, listing: seq<Path>)
    requires Sound(card) && ListsCard(listing, card)
    ensures var own := OwnPaths(Members(card, listing));
            forall i :: 0 <= i < |listing| ==> Join(listing[i]) in own && own[Join(listing[i])] == listing[i]
  {
    var ms := Members(card, listing);
    NamesAreOwn(card, listing);
    forall i | 0 <= i < |listing| ensures Join(listing[i]) in NamesOf(ms) { assert ms[i].name in NamesOf(ms); }
  }

  /** Pushing a captured card back stages exactly the card it was captured from, its own marker
      kept and a blank one added only where the capture had none. */
  lemma CaptureComesBack(card: Card, listing: seq<Path>, marker: Option<string>)
    requires Sound(card) && ListsCard(listing, card) && NothingNested(Blank(marker), card)
    ensures var ms := Members(card, listing); Image(ms, Destinations(ms, None), marker) == Some(Blank(marker) + card)
  {
    OwnPathsAre(card, listing);
    LaidIs(card, listing, OwnPaths(Members(card, listing)), Blank(marker));
    OverlayAll(card, listing, Blank(marker));
  }

  lemma CaptureAcceptable(card: Card, listing: seq<Path>, limits: Limits)
    requires Sound(card) && ListsCard(listing, card)
    requires TotalSize(Members(card, listing)) <= limits.maxBytes && |listing| <= limits.maxEntries
    ensures Acceptable(Members(card, listing), None, limits)
  {
    NamesAreOwn(card, listing);
  }

  /** A card captured whole and pushed with no failure is the card again, whatever the slot held before. */
  method MoveCard(card: Card, listing: seq<Path>, marker: Option<string>, d: Disk, limits: Limits, to: MemcardDir)
    returns (b: Built, r: Outcome)
    requires Sound(card) && ListsCard(listing, card) && NothingNested(Blank(marker), card)
    requires TotalSize(Members(card, listing)) <= limits.maxBytes && |listing| <= limits.maxEntries
    modifies to
    ensures b.Captured? && old(to.card) != Some(FileCard) ==>
              r.Replaced? && to.card == Some(Folder(Blank(marker) + card))
  {
    b := BuildArchive(Some(Folder(card)), listing, marker, limits.maxBytes, d);
    r := Refused(NotWritten);
    if b.Captured? {
      CaptureComesBack(card, listing, marker);
      CaptureAcceptable(card, listing, limits);
      r := to.Replace(b.members, marker, None, limits, NothingFails(), None, None);
    }
  }
}
