/** Replacing a whole memory card: the image is staged, and renames swap it in (`memcard.replace`). */
module CardSwap {
  import opened Options
  import opened Paths
  import opened Tree

  /** A folder card's files, by path below the card. */
  type Card = map<Path, Bytes>

  /** How reading from a member ends: with its bytes, with an error `replace` handles (a bad checksum,
      encryption, a method the zip library lacks), or with one it does not (deflate data gone bad). */
  datatype Reading = Gives(data: Bytes) | Refuses | Raises

  /** One file member of the image. A placement hook is shown its head; its body is read to write it. */
  datatype Member = Member(name: string, size: nat, head: Reading, body: Reading)

  /** How much of a member a placement hook is shown. */
  const HEAD_BYTES := 0x40

  /** A file as it reads back from a sound archive. */
  function MemberOf(p: Path, data: Bytes): Member {
    Member(Join(p), |data|, Gives(if |data| <= HEAD_BYTES then data else data[..HEAD_BYTES]), Gives(data))
  }

  /** A placement hook is shown the first 64 bytes of a member, or all of a shorter one. */
  lemma HeadIsFirst(p: Path, data: Bytes)
    ensures var m := MemberOf(p, data);
            && m.head.Gives? && m.head.data <= data && m.body == Gives(data) && m.size == |data|
            && (|m.head.data| == 64 || m.head.data == data) && |m.head.data| <= 64
  {
    assert |data| <= 64 ==> data[..|data|] == data;
  }

  /** What an emulator's hook answers: a destination for every member, and the ones it will not read. */
  datatype Answer = Answer(dests: map<string, string>, unread: seq<string>)

  datatype Refusal =
    | SingleFile | TooLarge | TooManyEntries | Escapes(name: string)
    | Unreadable | Unplaced(name: string) | PlacedOutside(name: string) | TwoOnOne(name: string)
    | NotWritten

  /** `Raised` is an error that leaves `replace` unhandled. */
  datatype Outcome = Replaced(written: nat, unread: seq<string>) | Refused(why: Refusal) | Raised

  datatype Limits = Limits(maxBytes: nat, maxEntries: nat)

  // ---- Where members go ----

  predicate Leaves(name: string) { Absolute(name) || ".." in Parts(name) || Parts(name) == [] }

  function NamesOf(ms: seq<Member>): set<string> { set i | 0 <= i < |ms| :: ms[i].name }

  function OwnPaths(ms: seq<Member>): map<string, Path> { map n | n in NamesOf(ms) :: Parts(n) }

  /** The hook placed every one of the names inside the card, no two of them on one file. */
  ghost predicate PlacesAll(names: set<string>, a: Answer) {
    && (forall n :: n in names ==> n in a.dests && !Leaves(a.dests[n]))
    && (forall m, n :: m in names && n in names && m != n ==> Parts(a.dests[m]) != Parts(a.dests[n]))
  }

  function Placed(names: set<string>, a: Answer): map<string, Path> {
    map n | n in names :: if n in a.dests then Parts(a.dests[n]) else []
  }

  predicate HeadsRead(ms: seq<Member>) { forall i :: 0 <= i < |ms| ==> ms[i].head.Gives? }

  /** The first head that cannot be read fails with an error nothing handles. */
  ghost predicate HeadsRaise(ms: seq<Member>) {
    exists i :: 0 <= i < |ms| && ms[i].head.Raises? && HeadsRead(ms[..i])
  }

  /** A name stays in the card exactly when it is relative and leads to a path below, by no `..`. */
  lemma LeavesMeans(name: string)
    ensures !Leaves(name) <==> !("/" <= name) && Parts(name) != [] && InnerPath(Parts(name))
  {
    assert "/" <= name <==> Absolute(name);
  }

  /** An answer accepted for every member puts each strictly inside the card, on a file no other is put on. */
  lemma PlacedInside(names: set<string>, a: Answer, n: string)
    requires PlacesAll(names, a) && n in names
    ensures Parts(a.dests[n]) != [] && InnerPath(Parts(a.dests[n])) && !("/" <= a.dests[n])
    ensures forall m :: m in names && m != n ==> Parts(a.dests[m]) != Parts(a.dests[n])
  {
    LeavesMeans(a.dests[n]);
  }

  lemma PlaceOne(names: set<string>, name: string, a: Answer)
    requires PlacesAll(names, a) && name !in names
    ensures PlacesAll(names + {name}, a) <==>
              && name in a.dests && !Leaves(a.dests[name])
              && forall m :: m in Placed(names, a) ==> Placed(names, a)[m] != Parts(a.dests[name])
  {
    assert forall m :: m in names ==> Placed(names, a)[m] == Parts(a.dests[m]) && m in names + {name};
  }

  lemma FewerPlaced(some: set<string>, names: set<string>, a: Answer)
    requires some <= names && PlacesAll(names, a)
    ensures PlacesAll(some, a)
  {}

  ghost predicate ClaimedAre(names: set<string>, a: Answer, claimed: set<Path>) {
    forall p :: p in claimed <==> exists n :: n in names && Placed(names, a)[n] == p
  }

  lemma ClaimOne(names: set<string>, name: string, a: Answer, claimed: set<Path>)
    requires ClaimedAre(names, a, claimed) && name in a.dests && name !in names
    ensures Placed(names + {name}, a) == Placed(names, a)[name := Parts(a.dests[name])]
    ensures ClaimedAre(names + {name}, a, claimed + {Parts(a.dests[name])})
  {
    var more := Placed(names + {name}, a);
    assert forall n :: n in names ==> more[n] == Placed(names, a)[n];
    assert name in names + {name} && more[name] == Parts(a.dests[name]);
  }

  /** What is wrong with one more placement, if anything. */
  method CheckOne(ghost names: set<string>, name: string, a: Answer, claimed: set<Path>) returns (why: Option<Refusal>)
    requires PlacesAll(names, a) && name !in names
    requires ClaimedAre(names, a, claimed)
    ensures why.None? <==> PlacesAll(names + {name}, a)
  {
    PlaceOne(names, name, a);
    if name !in a.dests {
      return Some(Unplaced(name));
    }
    if Leaves(a.dests[name]) {
      return Some(PlacedOutside(name));
    }
    if Parts(a.dests[name]) in claimed {
      return Some(TwoOnOne(name));
    }
    return None;
  }

  /** A hook's answer is accepted exactly when it places every member, each on a file of its own. */
  method CheckAnswer(ms: seq<Member>, a: Answer) returns (dests: map<string, Path>, why: Option<Refusal>)
    ensures why.None? <==> PlacesAll(NamesOf(ms), a)
    ensures why.None? ==> dests == Placed(NamesOf(ms), a)
  {
    dests, why := map[], None;
    var claimed: set<Path> := {};
    for i := 0 to |ms|
      invariant PlacesAll(NamesOf(ms[..i]), a) && dests == Placed(NamesOf(ms[..i]), a)
      invariant ClaimedAre(NamesOf(ms[..i]), a, claimed)
      invariant why.None?
    {
      var name := ms[i].name;
      ghost var names := NamesOf(ms[..i]);
      assert NamesOf(ms[..i + 1]) == names + {name};
      if name in dests {
        assert names + {name} == names;
      } else {
        why := CheckOne(names, name, a, claimed);
        if why.Some? {
          assert names + {name} <= NamesOf(ms);
          if PlacesAll(NamesOf(ms), a) { FewerPlaced(names + {name}, NamesOf(ms), a); }
          return;
        }
        ClaimOne(names, name, a, claimed);
        claimed := claimed + {Parts(a.dests[name])};
        dests := dests[name := Parts(a.dests[name])];
      }
    }
    assert ms[..|ms|] == ms;
  }

  /** Where each member is written, or how the call ends when it cannot be told. */
  method Arrange(ms: seq<Member>, hook: Option<Answer>) returns (dests: map<string, Path>, end: Option<Outcome>)
    ensures end.None? <==> Arrangeable(ms, hook)
    ensures end == Some(Raised) <==> hook.Some? && HeadsRaise(ms)
    ensures end.None? ==> dests == Destinations(ms, hook)
    ensures end.Some? ==> !end.value.Replaced?
  {
    if hook.None? {
      return OwnPaths(ms), None;
    }
    for i := 0 to |ms|
      invariant HeadsRead(ms[..i])
    {
      if !ms[i].head.Gives? {
        return map[], Some(if ms[i].head.Raises? then Raised else Refused(Unreadable));
      }
    }
    assert ms[..|ms|] == ms;
    var why;
    dests, why := CheckAnswer(ms, hook.value);
    end := if why.Some? then Some(Refused(why.value)) else None;
  }

  ghost predicate Arrangeable(ms: seq<Member>, hook: Option<Answer>) {
    hook.Some? ==> HeadsRead(ms) && PlacesAll(NamesOf(ms), hook.value)
  }

  function Destinations(ms: seq<Member>, hook: Option<Answer>): (dests: map<string, Path>)
    ensures dests.Keys == NamesOf(ms)
  {
    if hook.None? then OwnPaths(ms) else Placed(NamesOf(ms), hook.value)
  }

  // ---- The staged image ----

  /** No file stands where `p` needs a directory. */
  predicate DirsFree(c: Card, p: Path) { forall q :: q in c ==> !StrictPrefix(q, p) }

  /** Nor is `p` itself needed as one. */
  predicate Fits(c: Card, p: Path) { DirsFree(c, p) && forall q :: q in c ==> !StrictPrefix(p, q) }

  predicate Writable(c: Card, m: Member, dest: Path) { m.body.Gives? && Fits(c, dest) }

  /** The staging directory once the members are written in order, None if one cannot be. */
  function Lay(ms: seq<Member>, dests: map<string, Path>, c: Card): Option<Card>
    requires forall i :: 0 <= i < |ms| ==> ms[i].name in dests
  {
    if ms == [] then Some(c)
    else
      var n := |ms| - 1;
      var before := Lay(ms[..n], dests, c);
      if before.None? || !Writable(before.value, ms[n], dests[ms[n].name]) then None
      else Some(before.value[dests[ms[n].name] := ms[n].body.data])
  }

  function Blank(marker: Option<string>): Card {
    if marker.Some? then map[Parts(marker.value) := []] else map[]
  }

  /** The whole new image: the blank marker, then every member where it belongs, an image's own marker winning. */
  function Image(ms: seq<Member>, dests: map<string, Path>, marker: Option<string>): Option<Card>
    requires forall i :: 0 <= i < |ms| ==> ms[i].name in dests
  {
    Lay(ms, dests, Blank(marker))
  }

  /** Member `i` goes to `p`. */
  ghost predicate GoesTo(ms: seq<Member>, dests: map<string, Path>, i: int, p: Path) {
    0 <= i < |ms| && ms[i].name in dests && dests[ms[i].name] == p
  }

  ghost predicate SomeGoesTo(ms: seq<Member>, dests: map<string, Path>, p: Path) { exists i :: GoesTo(ms, dests, i, p) }

  /** Member `i` goes to `p`, and none behind it does. */
  ghost predicate LastAt(ms: seq<Member>, dests: map<string, Path>, i: int, p: Path) {
    GoesTo(ms, dests, i, p) && forall j :: i < j < |ms| ==> !GoesTo(ms, dests, j, p)
  }

  lemma GoesBefore(ms: seq<Member>, dests: map<string, Path>, i: int, p: Path)
    requires ms != []
    ensures var n := |ms| - 1;
            && (SomeGoesTo(ms, dests, p) <==> SomeGoesTo(ms[..n], dests, p) || GoesTo(ms, dests, n, p))
            && (LastAt(ms, dests, i, p) <==>
                  if GoesTo(ms, dests, n, p) then i == n else LastAt(ms[..n], dests, i, p))
  {
    var n := |ms| - 1;
    forall k ensures GoesTo(ms[..n], dests, k, p) <==> GoesTo(ms, dests, k, p) && k != n {}
    if LastAt(ms[..n], dests, i, p) && !GoesTo(ms, dests, n, p) {
      forall j | i < j < |ms| ensures !GoesTo(ms, dests, j, p) {
        assert j < n ==> !GoesTo(ms[..n], dests, j, p);
      }
    }
    if LastAt(ms, dests, i, p) && i != n {
      forall j | i < j < n ensures !GoesTo(ms[..n], dests, j, p) {
        assert !GoesTo(ms, dests, j, p);
      }
    }
  }

  /** What laying members down over a card does to one place: it holds what was laid down there last. */
  ghost predicate LaidAt(ms: seq<Member>, dests: map<string, Path>, c: Card, laid: Card, p: Path, i: int) {
    && (p in laid <==> p in c || SomeGoesTo(ms, dests, p))
    && (LastAt(ms, dests, i, p) ==> p in laid && ms[i].body == Gives(laid[p]))
    && (p in c && !SomeGoesTo(ms, dests, p) ==> p in laid && laid[p] == c[p])
  }

  lemma LaidStep(ms: seq<Member>, dests: map<string, Path>, c: Card, before: Card, p: Path, i: int)
    requires ms != [] && ms[|ms| - 1].name in dests && ms[|ms| - 1].body.Gives?
    requires LaidAt(ms[..|ms| - 1], dests, c, before, p, i)
    ensures var m := ms[|ms| - 1]; LaidAt(ms, dests, c, before[dests[m.name] := m.body.data], p, i)
  {
    GoesBefore(ms, dests, i, p);
  }

  lemma {:induction false} LayMeans(ms: seq<Member>, dests: map<string, Path>, c: Card, p: Path, i: int)
    requires forall k :: 0 <= k < |ms| ==> ms[k].name in dests
    requires Lay(ms, dests, c).Some?
    ensures LaidAt(ms, dests, c, Lay(ms, dests, c).value, p, i)
  {
    if ms != [] {
      var n := |ms| - 1;
      LayMeans(ms[..n], dests, c, p, i);
      LaidStep(ms, dests, c, Lay(ms[..n], dests, c).value, p, i);
    }
  }

  /** Member `i` reads, and neither a file there before nor a member before it is in the way of its place. */
  ghost predicate ComesIn(ms: seq<Member>, dests: map<string, Path>, c: Card, i: int)
    requires 0 <= i < |ms| && forall k :: 0 <= k < |ms| ==> ms[k].name in dests
  {
    && ms[i].body.Gives?
    && (forall q :: q in c ==> !Nested(q, dests[ms[i].name]))
    && forall k :: 0 <= k < i ==> !Nested(dests[ms[k].name], dests[ms[i].name])
  }

  /** All members can be laid down exactly when each of them comes in. */
  lemma {:induction false} LayExists(ms: seq<Member>, dests: map<string, Path>, c: Card)
    requires forall k :: 0 <= k < |ms| ==> ms[k].name in dests
    ensures Lay(ms, dests, c).Some? <==> forall i :: 0 <= i < |ms| ==> ComesIn(ms, dests, c, i)
  {
    if ms != [] {
      var n := |ms| - 1;
      LayExists(ms[..n], dests, c);
      forall i | 0 <= i < n ensures ComesIn(ms[..n], dests, c, i) <==> ComesIn(ms, dests, c, i) {}
      if Lay(ms[..n], dests, c).Some? { LastComesIn(ms, dests, c); }
    }
  }

  lemma LastComesIn(ms: seq<Member>, dests: map<string, Path>, c: Card)
    requires ms != [] && forall k :: 0 <= k < |ms| ==> ms[k].name in dests
    requires Lay(ms[..|ms| - 1], dests, c).Some?
    ensures var n := |ms| - 1;
            ComesIn(ms, dests, c, n) <==> Writable(Lay(ms[..n], dests, c).value, ms[n], dests[ms[n].name])
  {
    var n := |ms| - 1;
    var before, dest := Lay(ms[..n], dests, c).value, dests[ms[n].name];
    forall q ensures q in before <==> q in c || SomeGoesTo(ms[..n], dests, q) {
      LayMeans(ms[..n], dests, c, q, 0);
    }
    if Fits(before, dest) {
      forall k | 0 <= k < n ensures !Nested(dests[ms[k].name], dest) {
        assert GoesTo(ms[..n], dests, k, dests[ms[k].name]);
      }
    }
    if ComesIn(ms, dests, c, n) {
      forall q | q in before ensures !Nested(q, dest) {
        if SomeGoesTo(ms[..n], dests, q) {
          var k :| GoesTo(ms[..n], dests, k, q);
        }
      }
    }
  }

  /** Where the image is pushed to: the hook's place for a member where there is a hook, its own name elsewhere. */
  function PlaceOf(m: Member, hook: Option<Answer>): Path {
    if hook.None? then Parts(m.name)
    else if m.name in hook.value.dests then Parts(hook.value.dests[m.name])
    else []
  }

  ghost predicate Pushed(ms: seq<Member>, hook: Option<Answer>, i: int, p: Path) {
    0 <= i < |ms| && PlaceOf(ms[i], hook) == p
  }

  lemma DestinationsAre(ms: seq<Member>, hook: Option<Answer>, i: nat)
    requires i < |ms|
    ensures ms[i].name in Destinations(ms, hook) && Destinations(ms, hook)[ms[i].name] == PlaceOf(ms[i], hook)
  {
    assert ms[i].name in NamesOf(ms);
  }

  /** The new card holds every member where it was pushed, with its bytes, the last of several in one place
      winning; the marker, empty unless a member brought its own; and nothing else. */
  lemma ImageMeans(ms: seq<Member>, hook: Option<Answer>, marker: Option<string>, p: Path, i: int)
    requires Arrangeable(ms, hook) && Image(ms, Destinations(ms, hook), marker).Some?
    ensures var image := Image(ms, Destinations(ms, hook), marker).value;
            && (p in image <==> (marker.Some? && p == Parts(marker.value)) || exists k :: Pushed(ms, hook, k, p))
            && (Pushed(ms, hook, i, p) && (forall k :: i < k < |ms| ==> !Pushed(ms, hook, k, p)) ==>
                  p in image && ms[i].body == Gives(image[p]))
            && (marker.Some? && p == Parts(marker.value) && (forall k :: !Pushed(ms, hook, k, p)) ==>
                  p in image && image[p] == [])
  {
    var dests := Destinations(ms, hook);
    forall k ensures Pushed(ms, hook, k, p) <==> GoesTo(ms, dests, k, p) {
      if 0 <= k < |ms| { DestinationsAre(ms, hook, k); }
    }
    LayMeans(ms, dests, Blank(marker), p, i);
  }

  /** Neither place is needed as a directory by the other, for any two of the members. */
  ghost predicate Disjoint(ms: seq<Member>, at: Member -> Path) {
    forall i, k :: 0 <= i < |ms| && 0 <= k < |ms| ==> !Nested(at(ms[k]), at(ms[i]))
  }

  ghost predicate ClearOf(ms: seq<Member>, at: Member -> Path, c: Card) {
    forall i, q :: 0 <= i < |ms| && q in c ==> !Nested(q, at(ms[i]))
  }

  ghost predicate Whole(ms: seq<Member>) { forall i :: 0 <= i < |ms| ==> ms[i].body.Gives? }

  function Goes(hook: Option<Answer>): Member -> Path { (m: Member) => PlaceOf(m, hook) }

  /** The image can be put together exactly when every member reads whole, and no place of it is needed as a
      directory by another or by the marker. */
  lemma ImageExists(ms: seq<Member>, hook: Option<Answer>, marker: Option<string>)
    requires Arrangeable(ms, hook)
    ensures Image(ms, Destinations(ms, hook), marker).Some? <==>
              && Whole(ms) && Disjoint(ms, Goes(hook))
              && (marker.Some? ==> forall i :: 0 <= i < |ms| ==> !Nested(Parts(marker.value), Goes(hook)(ms[i])))
  {
    var dests := Destinations(ms, hook);
    forall k | 0 <= k < |ms| ensures ms[k].name in dests && dests[ms[k].name] == Goes(hook)(ms[k]) {
      DestinationsAre(ms, hook, k);
    }
    LayExists(ms, dests, Blank(marker));
    InAnyOrder(ms, dests, Blank(marker), Goes(hook));
    BlankAlone(ms, Goes(hook), marker);
  }

  lemma BlankAlone(ms: seq<Member>, at: Member -> Path, marker: Option<string>)
    ensures ClearOf(ms, at, Blank(marker)) <==>
              (marker.Some? ==> forall i :: 0 <= i < |ms| ==> !Nested(Parts(marker.value), at(ms[i])))
  {
    if marker.Some? { assert Parts(marker.value) in Blank(marker); }
  }

  lemma InAnyOrder(ms: seq<Member>, dests: map<string, Path>, c: Card, at: Member -> Path)
    requires forall k :: 0 <= k < |ms| ==> ms[k].name in dests && dests[ms[k].name] == at(ms[k])
    ensures (forall i :: 0 <= i < |ms| ==> ComesIn(ms, dests, c, i)) <==>
              Whole(ms) && ClearOf(ms, at, c) && Disjoint(ms, at)
  {
    if forall i :: 0 <= i < |ms| ==> ComesIn(ms, dests, c, i) {
      forall i | 0 <= i < |ms|
        ensures ms[i].body.Gives? && forall q :: q in c ==> !Nested(q, at(ms[i]))
      {
        assert ComesIn(ms, dests, c, i);
      }
      forall i, k | 0 <= i < |ms| && 0 <= k < |ms| ensures !Nested(at(ms[k]), at(ms[i])) {
        assert ComesIn(ms, dests, c, i) && ComesIn(ms, dests, c, k);
      }
    }
    if Whole(ms) && ClearOf(ms, at, c) && Disjoint(ms, at) {
      forall i | 0 <= i < |ms| ensures ComesIn(ms, dests, c, i) {}
    }
  }

  // ---- The swap ----

  /** What can go wrong on the disk, step by step; all of these `replace` handles. */
  datatype Step =
    | MakeStaging | TouchMarker | MakeDirs(i: nat) | WriteMember(i: nat)
    | MoveOld | MoveNew | MoveBack | CleanUp

  /** Making the staging directory and its marker does not fail. */
  predicate Opens(marker: Option<string>, fails: Step -> bool) {
    !fails(MakeStaging) && (marker.Some? ==> !fails(TouchMarker))
  }

  /** Writing the first `n` members does not fail on the disk's account. */
  ghost predicate Undisturbed(n: nat, fails: Step -> bool) {
    forall i: nat :: i < n ==> !fails(MakeDirs(i)) && !fails(WriteMember(i))
  }

  /** All members before `i` are laid down, then reading member `i` raises what nothing handles. */
  ghost predicate ThrowsAt(ms: seq<Member>, dests: map<string, Path>, marker: Option<string>, fails: Step -> bool,
                           i: nat)
    requires forall k :: 0 <= k < |ms| ==> ms[k].name in dests
    requires i < |ms|
  {
    var laid := Image(ms[..i], dests, marker);
    && Undisturbed(i, fails) && laid.Some?
    && !fails(MakeDirs(i)) && DirsFree(laid.value, dests[ms[i].name])
    && ms[i].body.Raises?
  }

  ghost predicate Throws(ms: seq<Member>, dests: map<string, Path>, marker: Option<string>, fails: Step -> bool)
    requires forall k :: 0 <= k < |ms| ==> ms[k].name in dests
  {
    exists i :: 0 <= i < |ms| && ThrowsAt(ms, dests, marker, fails, i)
  }

  /** The whole image gets staged. */
  ghost predicate Stages(ms: seq<Member>, dests: map<string, Path>, marker: Option<string>, fails: Step -> bool)
    requires forall k :: 0 <= k < |ms| ==> ms[k].name in dests
  {
    Undisturbed(|ms|, fails) && Image(ms, dests, marker).Some?
  }

  /** When member `n` stops the staging, all before it being laid down, nothing later changes that. */
  lemma StopsAt(ms: seq<Member>, dests: map<string, Path>, marker: Option<string>, fails: Step -> bool, n: nat)
    requires forall k :: 0 <= k < |ms| ==> ms[k].name in dests
    requires n < |ms| && Image(ms[..n], dests, marker).Some?
    requires !Undisturbed(n + 1, fails) || Image(ms[..n + 1], dests, marker).None?
    ensures !Stages(ms, dests, marker, fails)
    ensures forall i :: n < i < |ms| ==> !ThrowsAt(ms, dests, marker, fails, i)
    ensures forall i :: 0 <= i < n ==> !ThrowsAt(ms, dests, marker, fails, i)
  {
    LayFails(ms, dests, Blank(marker), n + 1);
    forall i | n < i < |ms| ensures !ThrowsAt(ms, dests, marker, fails, i) {
      assert ms[..i][..n + 1] == ms[..n + 1];
      LayFails(ms[..i], dests, Blank(marker), n + 1);
    }
    forall i | 0 <= i < n ensures !ThrowsAt(ms, dests, marker, fails, i) {
      assert ms[..n][..i + 1] == ms[..i + 1];
      LayFails(ms[..n], dests, Blank(marker), i + 1);
      assert ms[..i + 1][..i] == ms[..i];
    }
  }

  datatype Slot = FileCard | Folder(card: Card)

  ghost predicate Bounded(ms: seq<Member>, limits: Limits) {
    && TotalSize(ms) <= limits.maxBytes && |ms| <= limits.maxEntries
    && (forall i :: 0 <= i < |ms| ==> !Leaves(ms[i].name))
  }

  /** The image is acceptable before anything is touched. */
  ghost predicate Acceptable(ms: seq<Member>, hook: Option<Answer>, limits: Limits) {
    Bounded(ms, limits) && Arrangeable(ms, hook)
  }

  datatype SwapEnd = Swapped | Stopped | Thrown

  /** The paths beside each other under one parent: the live card, the staged one, the old one. */
  class MemcardDir {
    var card: Option<Slot>
    var staging: Option<Card>
    var backup: Option<Slot>

    /** A slot that holds no card, with nothing beside it. */
    constructor Empty()
      ensures card == None && staging == None && backup == None
    {
      card, staging, backup := None, None, None;
    }

    /** Replace the card, with any step on the disk liable to fail and any member to turn out damaged.
        `leftStaging` and `leftBackup` are what the first clean-up could not remove.

        The card ends as the whole new image or as it was; only if the restoring rename fails too is
        it absent, the old card then whole at the backup path. The one other end: an acceptable push
        into an empty slot is refused while staging or swapping, beside a backup no clean-up could
        remove, and the restoring rename puts that old backup in the slot. An error nothing handles
        leaves the card alone. */
    method Replace(ms: seq<Member>, marker: Option<string>, hook: Option<Answer>, limits: Limits, fails: Step -> bool,
                   leftStaging: Option<Card>, leftBackup: Option<Slot>)
      returns (r: Outcome)
      modifies this
      ensures r.Replaced? ==>
                && r == Replaced(|ms|, if hook.Some? then hook.value.unread else [])
                && card.Some? && card.value.Folder?
                && Some(card.value.card) == Image(ms, Destinations(ms, hook), marker)
      ensures r.Refused? ==>
                || card == old(card)
                || (card.None? && old(card).Some? && backup == old(card) && r.why == NotWritten && fails(MoveBack))
                || (old(card).None? && leftBackup.Some? && card == leftBackup && r.why == NotWritten)
      ensures r.Refused? && old(card).None? ==>
                (card != old(card) <==> Acceptable(ms, hook, limits) && leftBackup.Some? && !fails(MoveBack))
      ensures r.Raised? ==>
                card == old(card) && backup == if Acceptable(ms, hook, limits) then leftBackup else old(backup)
      ensures old(card) == Some(FileCard) ==> r == Refused(SingleFile)
      ensures r.Replaced? <==>
                && old(card) != Some(FileCard) && Acceptable(ms, hook, limits)
                && leftStaging.None? && Opens(marker, fails) && Stages(ms, Destinations(ms, hook), marker, fails)
                && (old(card).Some? ==> leftBackup.None? && !fails(MoveOld)) && !fails(MoveNew)
      ensures r.Raised? <==>
                && old(card) != Some(FileCard) && Bounded(ms, limits)
                && ((hook.Some? && HeadsRaise(ms))
                    || (Arrangeable(ms, hook) && leftStaging.None? && Opens(marker, fails)
                        && Throws(ms, Destinations(ms, hook), marker, fails)))
    {
      if card == Some(FileCard) {
        return Refused(SingleFile);
      }
      if TotalSize(ms) > limits.maxBytes {
        return Refused(TooLarge);
      }
      if |ms| > limits.maxEntries {
        return Refused(TooManyEntries);
      }
      for i := 0 to |ms|
        invariant forall k :: 0 <= k < i ==> !Leaves(ms[k].name)
      {
        if Leaves(ms[i].name) {
          return Refused(Escapes(ms[i].name));
        }
      }
      var dests, end := Arrange(ms, hook);
      if end.Some? {
        return end.value;
      }
      staging, backup := leftStaging, leftBackup;
      var swap := Swap(ms, dests, marker, fails);
      match swap
      case Swapped =>
        if !fails(CleanUp) {
          backup := None;
        }
        r := Replaced(|ms|, if hook.Some? then hook.value.unread else []);
      case Stopped =>
        RollBack(fails(MoveBack), fails(CleanUp));
        r := Refused(NotWritten);
      case Thrown =>
        r := Raised;
    }

    /** After a failed step: put the old card back if it was moved aside. */
    method RollBack(restoreFails: bool, cleanFails: bool)
      modifies this
      ensures if old(card).None? && old(backup).Some? then
                if restoreFails then card.None? && backup == old(backup) else card == old(backup)
              else card == old(card)
    {
      staging := None;
      if card.None? && backup.Some? {
        if restoreFails {
          return;
        }
        card, backup := backup, None;
      }
      if !cleanFails {
        backup := None;
      }
    }

    /** Stage the image and swap it in, up to the first thing that goes wrong. */
    method Swap(ms: seq<Member>, dests: map<string, Path>, marker: Option<string>, fails: Step -> bool)
      returns (end: SwapEnd)
      requires forall i :: 0 <= i < |ms| ==> ms[i].name in dests
      modifies this
      ensures end.Swapped? ==> card.Some? && card.value.Folder? && Some(card.value.card) == Image(ms, dests, marker)
      ensures end.Stopped? ==>
                || (card == old(card) && backup == old(backup))
                || (old(backup).None? && card.None? && backup == old(card))
      ensures end.Thrown? ==> card == old(card) && backup == old(backup)
      ensures end.Swapped? <==>
                && old(staging).None? && Opens(marker, fails) && Stages(ms, dests, marker, fails)
                && (old(card).Some? ==> old(backup).None? && !fails(MoveOld)) && !fails(MoveNew)
      ensures end.Thrown? <==> old(staging).None? && Opens(marker, fails) && Throws(ms, dests, marker, fails)
    {
      if fails(MakeStaging) || staging.Some? {
        return Stopped;
      }
      staging := Some(map[]);
      if marker.Some? {
        if fails(TouchMarker) {
          return Stopped;
        }
        staging := Some(map[Parts(marker.value) := []]);
      }
      end := StageMembers(ms, dests, marker, fails);
      if !end.Swapped? {
        return;
      }
      if card.Some? {
        if fails(MoveOld) || backup.Some? {
          return Stopped;
        }
        card, backup := None, card;
      }
      if fails(MoveNew) {
        return Stopped;
      }
      card, staging := Some(Folder(staging.value)), None;
    }

    /** Write each member into the staging directory: its directories, its body, the file. */
    method StageMembers(ms: seq<Member>, dests: map<string, Path>, marker: Option<string>, fails: Step -> bool)
      returns (end: SwapEnd)
      requires forall i :: 0 <= i < |ms| ==> ms[i].name in dests
      requires staging == Some(Blank(marker))
      modifies this`staging
      ensures staging.Some?
      ensures end.Swapped? <==> Stages(ms, dests, marker, fails)
      ensures end.Swapped? ==> staging == Image(ms, dests, marker)
      ensures end.Thrown? <==> Throws(ms, dests, marker, fails)
    {
      for i := 0 to |ms|
        invariant staging.Some? && staging == Image(ms[..i], dests, marker) && Undisturbed(i, fails)
        invariant forall k :: 0 <= k < i ==> !ThrowsAt(ms, dests, marker, fails, k)
      {
        assert ms[..i + 1][..i] == ms[..i];
        var m, dest := ms[i], dests[ms[i].name];
        if fails(MakeDirs(i)) || !DirsFree(staging.value, dest) {
          StopsAt(ms, dests, marker, fails, i);
          return Stopped;
        }
        if !m.body.Gives? {
          StopsAt(ms, dests, marker, fails, i);
          assert m.body.Raises? <==> ThrowsAt(ms, dests, marker, fails, i);
          return if m.body.Raises? then Thrown else Stopped;
        }
        if fails(WriteMember(i)) || !Fits(staging.value, dest) {
          StopsAt(ms, dests, marker, fails, i);
          return Stopped;
        }
        staging := Some(staging.value[dest := m.body.data]);
      }
      assert ms[..|ms|] == ms;
      return Swapped;
    }
  }

  /** That other end happens: the staging directory cannot be made, and whatever backup was stranded
      beside an empty slot becomes the card. */
  method StrandedBackupReturns(stranded: Card) returns (before: Option<Slot>, r: Outcome, after: Option<Slot>)
    ensures before == None && r == Refused(NotWritten) && after == Some(Folder(stranded))
  {
    var d := new MemcardDir.Empty();
    before := d.card;
    r := d.Replace([], None, None, Limits(0, 0), s => s == MakeStaging, None, Some(Folder(stranded)));
    after := d.card;
  }

  /** An image of one member that its hook leaves where it is; its head reads, its body ends as given. */
  function OneMember(body: Reading): seq<Member> { [Member("a", 1, Gives([0]), body)] }

  const ITS_OWN_PLACE := Answer(map["a" := "a"], [])

  lemma OneMemberIs(body: Reading)
    requires !body.Gives?
    ensures var ms, hook := OneMember(body), Some(ITS_OWN_PLACE);
            && Acceptable(ms, hook, Limits(1, 1)) && Image(ms, Destinations(ms, hook), None).None?
            && (body.Raises? <==> Throws(ms, Destinations(ms, hook), None, NothingFails()))
  {
    var ms, hook := OneMember(body), Some(ITS_OWN_PLACE);
    var dests := Destinations(ms, hook);
    PartsOfJoin(["a"]);
    assert ms[0].name == "a" && ms[..0] == [];
    assert NamesOf(ms) == {"a"};
    assert Image(ms[..0], dests, None) == Some(map[]);
    assert body.Raises? ==> ThrowsAt(ms, dests, None, NothingFails(), 0);
  }

  function NothingFails(): Step -> bool { (s: Step) => false }

  /** Nor need the disk fail: a member damaged behind its head is enough. */
  method DamagedBodyStrands(stranded: Card) returns (before: Option<Slot>, r: Outcome, after: Option<Slot>)
    ensures before == None && r == Refused(NotWritten) && after == Some(Folder(stranded))
  {
    var d := new MemcardDir.Empty();
    before := d.card;
    OneMemberIs(Refuses);
    r := d.Replace(OneMember(Refuses), None, Some(ITS_OWN_PLACE), Limits(1, 1), NothingFails(),
                   None, Some(Folder(stranded)));
    after := d.card;
  }

  /** But if its damage raises what nothing handles, the slot stays empty and the backup where it lay. */
  method RaisedReadRollsNothingBack(stranded: Card) returns (r: Outcome, after: Option<Slot>, backup: Option<Slot>)
    ensures r == Raised && after == None && backup == Some(Folder(stranded))
  {
    var d := new MemcardDir.Empty();
    OneMemberIs(Raises);
    r := d.Replace(OneMember(Raises), None, Some(ITS_OWN_PLACE), Limits(1, 1), NothingFails(),
                   None, Some(Folder(stranded)));
    after, backup := d.card, d.backup;
  }

  function TotalSize(ms: seq<Member>): nat { if ms == [] then 0 else TotalSize(ms[..|ms| - 1]) + ms[|ms| - 1].size }

  /** The size an image is held to is that of all its members, wherever each comes. */
  lemma {:induction false} SizesAdd(a: seq<Member>, m: Member, b: seq<Member>)
    ensures TotalSize([]) == 0 && TotalSize(a + [m] + b) == TotalSize(a + b) + m.size
    decreases |b|
  {
    if b == [] {
      assert a + [m] + b == a + [m] && a + b == a && (a + [m])[..|a|] == a;
    } else {
      var n := |b| - 1;
      SizesAdd(a, m, b[..n]);
      assert (a + [m] + b)[..|a| + |b|] == a + [m] + b[..n] && (a + b)[..|a| + n] == a + b[..n];
    }
  }

  /** A member that cannot be written spoils the image, whatever follows it. */
  lemma {:induction false} LayFails(ms: seq<Member>, dests: map<string, Path>, c: Card, n: nat)
    requires forall i :: 0 <= i < |ms| ==> ms[i].name in dests
    requires n <= |ms|
    ensures Lay(ms[..n], dests, c).None? ==> Lay(ms, dests, c).None?
  {
    if n == |ms| {
      assert ms[..n] == ms;
    } else {
      var init := ms[..|ms| - 1];
      assert init[..n] == ms[..n];
      LayFails(init, dests, c, n);
    }
  }
}
