/** The seats of a session: who holds which gamepad, the mouse and keyboard, and the speaker role. */
module Seats {
  import opened Lists
  import opened Options

  /** An anonymous seat out of touch for no longer than this cannot be reclaimed. */
  const SEAT_RECLAIM_GRACE_SECONDS := 60.0

  datatype Seat = Seat(
    token: string, publicId: string, userId: Option<string>, anonymous: bool,
    lastSeen: real, slot: Option<int>, username: string, permission: string)

  datatype Session = Session(
    controllerToken: string, controllerPublicId: string, controllerSlot: Option<int>,
    viewers: seq<Seat>, mkOwner: Option<string>, speaker: Option<string>)

  /** Who asks for a seat; an empty username is none. */
  datatype Joiner = Joiner(userId: Option<string>, username: string)

  /** What minting a seat draws at random. */
  datatype Minted = Minted(token: string, publicId: string, username: string)

  datatype Settings = Settings(gamepadSlots: int, maxViewers: int)

  // ---- Searching ----

  function ByToken(token: string): Seat -> bool { (v: Seat) => v.token == token }

  function ByPublicId(id: string): Seat -> bool { (v: Seat) => v.publicId == id }

  /** Whether a seat belongs to the user now joining: by id where both have one, else by name. */
  predicate IsSameUser(j: Joiner, v: Seat) {
    if j.userId.Some? && v.userId.Some? then v.userId == j.userId else j.username != "" && v.username == j.username
  }

  function SameUser(j: Joiner): Seat -> bool { (v: Seat) => IsSameUser(j, v) }

  function OtherUser(j: Joiner): Seat -> bool { (v: Seat) => !IsSameUser(j, v) }

  predicate Seated(vs: seq<Seat>, token: string) { FirstAt(vs, ByToken(token)).Some? }

  predicate IsMember(s: Session, token: string) { token == s.controllerToken || Seated(s.viewers, token) }

  function TokensOf(vs: seq<Seat>): set<string> { set i | 0 <= i < |vs| :: vs[i].token }

  // ---- Public ids ----

  function PublicIdFor(s: Session, token: string): Option<string> {
    if s.controllerToken == token then Some(s.controllerPublicId)
    else
      var i := FirstAt(s.viewers, ByToken(token));
      if i.Some? then Some(s.viewers[i.value].publicId) else None
  }

  function ResolvePublicId(s: Session, id: Option<string>): Option<string> {
    if id.None? then None
    else if s.controllerPublicId == id.value then Some(s.controllerToken)
    else
      var i := FirstAt(s.viewers, ByPublicId(id.value));
      if i.Some? then Some(s.viewers[i.value].token) else None
  }

  /** Resolving a seat's public id gives that seat back exactly when no earlier member carries the same id. */
  lemma ResolveInverts(s: Session, i: nat)
    requires DistinctTokens(s) && i < |s.viewers|
    ensures PublicIdFor(s, s.viewers[i].token) == Some(s.viewers[i].publicId)
    ensures ResolvePublicId(s, PublicIdFor(s, s.viewers[i].token)) == Some(s.viewers[i].token) <==>
              s.controllerPublicId != s.viewers[i].publicId
              && forall j :: 0 <= j < i ==> s.viewers[j].publicId != s.viewers[i].publicId
  {
    var v := s.viewers[i];
    assert ByToken(v.token)(v) && ByPublicId(v.publicId)(v);
    var t := FirstAt(s.viewers, ByToken(v.token));
    assert s.viewers[t.value].token == v.token;
    var p := FirstAt(s.viewers, ByPublicId(v.publicId));
    assert forall j :: 0 <= j < |s.viewers| ==>
        (ByPublicId(v.publicId)(s.viewers[j]) <==> s.viewers[j].publicId == v.publicId);
  }

  /** The controller's own id always resolves back to it, and a token that is no member's has no id. */
  lemma ControllerResolves(s: Session, token: string)
    ensures ResolvePublicId(s, PublicIdFor(s, s.controllerToken)) == Some(s.controllerToken)
    ensures PublicIdFor(s, token).None? <==>
              token != s.controllerToken && forall i :: 0 <= i < |s.viewers| ==> s.viewers[i].token != token
  {
    assert forall i :: 0 <= i < |s.viewers| ==> (ByToken(token)(s.viewers[i]) <==> s.viewers[i].token == token);
  }

  /** Two guests drew one id: resolving the second guest's id names the first. */
  lemma EqualIdsMislead() returns (s: Session)
    ensures DistinctTokens(s) && |s.viewers| == 2
    ensures ResolvePublicId(s, PublicIdFor(s, s.viewers[1].token)) == Some(s.viewers[0].token)
  {
    var a := Seat("a", "0", None, true, 0.0, None, "", "participant");
    var b := Seat("b", "0", None, true, 0.0, None, "", "participant");
    s := Session("k", "1", Some(1), [a, b], None, None);
    ResolveInverts(s, 0);
    ResolveInverts(s, 1);
  }

  // ---- What every session keeps ----

  ghost predicate DistinctTokens(s: Session) {
    && (forall i, j :: 0 <= i < j < |s.viewers| ==> s.viewers[i].token != s.viewers[j].token)
    && (forall i :: 0 <= i < |s.viewers| ==> s.viewers[i].token != s.controllerToken)
  }

  /** No two members hold the same gamepad. */
  ghost predicate ExclusiveSlots(s: Session) {
    && (forall i, j :: 0 <= i < j < |s.viewers| && s.viewers[i].slot.Some? ==> s.viewers[i].slot != s.viewers[j].slot)
    && (forall i :: 0 <= i < |s.viewers| && s.viewers[i].slot.Some? ==> s.viewers[i].slot != s.controllerSlot)
  }

  predicate GoodSlot(cfg: Settings, slot: Option<int>) {
    slot.Some? ==> slot.value == 1 || 1 <= slot.value <= cfg.gamepadSlots
  }

  ghost predicate GoodSlots(cfg: Settings, s: Session) {
    GoodSlot(cfg, s.controllerSlot) && forall i :: 0 <= i < |s.viewers| ==> GoodSlot(cfg, s.viewers[i].slot)
  }

  /** The mouse and keyboard are a current viewer's or nobody's, the speaker a current member or nobody. */
  ghost predicate RolesHeld(s: Session) {
    (s.mkOwner.Some? ==> Seated(s.viewers, s.mkOwner.value)) && (s.speaker.Some? ==> IsMember(s, s.speaker.value))
  }

  ghost predicate WithinCap(cfg: Settings, s: Session) { s.viewers != [] ==> |s.viewers| <= cfg.maxViewers }

  ghost predicate Ok(cfg: Settings, s: Session) {
    DistinctTokens(s) && ExclusiveSlots(s) && GoodSlots(cfg, s) && RolesHeld(s) && WithinCap(cfg, s)
  }

  ghost predicate Holds(s: Session, token: string, slot: int) {
    || (token == s.controllerToken && s.controllerSlot == Some(slot))
    || exists i :: 0 <= i < |s.viewers| && s.viewers[i].token == token && s.viewers[i].slot == Some(slot)
  }

  lemma OneHolder(s: Session, a: string, b: string, slot: int)
    requires ExclusiveSlots(s) && Holds(s, a, slot) && Holds(s, b, slot)
    ensures a == b
  {}

  // ---- Slots ----

  /** A gamepad slot as a client names one: nothing, a number, or anything else. */
  datatype RawSlot = Nothing | Number(n: int) | Junk

  function GamepadSlot(cfg: Settings, raw: RawSlot): (bool, Option<int>) {
    match raw
    case Nothing => (true, None)
    case Number(n) => if 1 <= n <= cfg.gamepadSlots then (true, Some(n)) else (false, None)
    case Junk => (false, None)
  }

  function Reslot(v: Seat, token: string, slot: Option<int>): Seat {
    if v.token == token then v.(slot := slot)
    else if slot.Some? && v.slot == slot then v.(slot := None)
    else v
  }

  /** What assigning a slot means: the target gets it and nobody else keeps it. */
  function Reassigned(s: Session, target: Option<string>, slot: Option<int>): Session {
    if target.None? || !IsMember(s, target.value) then s
    else
      s.(controllerSlot := if target.value == s.controllerToken then slot
                           else if slot.Some? && s.controllerSlot == slot then None
                           else s.controllerSlot,
         viewers := seq(|s.viewers|, i requires 0 <= i < |s.viewers| => Reslot(s.viewers[i], target.value, slot)))
  }

  function HoldsButNot(slot: Option<int>, token: string): Seat -> bool {
    (v: Seat) => v.slot == slot && v.token != token
  }

  /** How the broker does it: it frees the controller if that holds the slot, else the first viewer
      that does, and stops. */
  function AssignSlot(s: Session, target: Option<string>, slot: Option<int>): Session {
    if target.None? || !IsMember(s, target.value) then s
    else
      var fromController := slot.Some? && s.controllerSlot == slot && s.controllerToken != target.value;
      var c := if fromController then None else s.controllerSlot;
      var vs := if slot.None? || fromController then s.viewers else FreeFirst(s.viewers, slot, target.value);
      if target.value == s.controllerToken then s.(controllerSlot := slot, viewers := vs)
      else s.(controllerSlot := c, viewers := GiveFirst(vs, target.value, slot))
  }

  function FreeFirst(vs: seq<Seat>, slot: Option<int>, token: string): seq<Seat> {
    var i := FirstAt(vs, HoldsButNot(slot, token));
    if i.Some? then vs[i.value := vs[i.value].(slot := None)] else vs
  }

  function GiveFirst(vs: seq<Seat>, token: string, slot: Option<int>): seq<Seat> {
    var i := FirstAt(vs, ByToken(token));
    if i.Some? then vs[i.value := vs[i.value].(slot := slot)] else vs
  }

  ghost predicate HolderButNot(s: Session, slot: Option<int>, token: string, i: int) {
    0 <= i < |s.viewers| && s.viewers[i].slot == slot && s.viewers[i].token != token
  }

  /** At most one member other than `token` holds the slot. */
  ghost predicate OneOtherHolder(s: Session, slot: Option<int>, token: string) {
    && (forall i, j :: HolderButNot(s, slot, token, i) && HolderButNot(s, slot, token, j) ==> i == j)
    && (s.controllerSlot == slot && s.controllerToken != token ==> forall i :: !HolderButNot(s, slot, token, i))
  }

  predicate ControllerGivesWay(s: Session, slot: Option<int>, token: string) {
    slot.Some? && s.controllerSlot == slot && s.controllerToken != token
  }

  /** The viewer the broker frees, if it frees one. */
  function Freed(s: Session, slot: Option<int>, token: string): Option<nat> {
    if slot.None? || ControllerGivesWay(s, slot, token) then None else FirstAt(s.viewers, HoldsButNot(slot, token))
  }

  lemma AssignedAt(s: Session, token: string, slot: Option<int>, i: nat)
    requires DistinctTokens(s) && IsMember(s, token) && i < |s.viewers|
    ensures |AssignSlot(s, Some(token), slot).viewers| == |s.viewers|
    ensures AssignSlot(s, Some(token), slot).viewers[i] ==
              if s.viewers[i].token == token then s.viewers[i].(slot := slot)
              else if Freed(s, slot, token) == Some(i) then s.viewers[i].(slot := None)
              else s.viewers[i]
  {
    var vs := if slot.None? || ControllerGivesWay(s, slot, token) then s.viewers else FreeFirst(s.viewers, slot, token);
    assert |vs| == |s.viewers| && forall k :: 0 <= k < |vs| ==> vs[k].token == s.viewers[k].token;
    var t := FirstAt(vs, ByToken(token));
    if token != s.controllerToken {
      var m := FirstAt(s.viewers, ByToken(token)).value;
      assert ByToken(token)(vs[m]);
      assert vs[t.value].token == token;
    }
  }

  /** Stopping at the first holder means what assigning should mean exactly when there is at most one to stop at. */
  lemma FirstHolderIsEnough(s: Session, token: string, slot: Option<int>)
    requires DistinctTokens(s) && IsMember(s, token) && slot.Some?
    ensures AssignSlot(s, Some(token), slot) == Reassigned(s, Some(token), slot) <==> OneOtherHolder(s, slot, token)
  {
    var a, b := AssignSlot(s, Some(token), slot), Reassigned(s, Some(token), slot);
    forall i | 0 <= i < |s.viewers|
      ensures |a.viewers| == |b.viewers| && b.viewers[i] == Reslot(s.viewers[i], token, slot)
      ensures a.viewers[i] == b.viewers[i] <==> HolderButNot(s, slot, token, i) ==> Freed(s, slot, token) == Some(i)
    {
      AssignedAt(s, token, slot, i);
    }
    forall i | HolderButNot(s, slot, token, i) ensures HoldsButNot(slot, token)(s.viewers[i]) {}
    assert |a.viewers| == |b.viewers|;
    if OneOtherHolder(s, slot, token) {
      forall i | 0 <= i < |s.viewers| ensures a.viewers[i] == b.viewers[i] {
        if HolderButNot(s, slot, token, i) {
          var f := FirstAt(s.viewers, HoldsButNot(slot, token));
          assert HolderButNot(s, slot, token, f.value);
        }
      }
      assert a.viewers == b.viewers;
    }
    assert a == b ==> forall i :: HolderButNot(s, slot, token, i) ==> a.viewers[i] == b.viewers[i];
  }

  /** In a session that has kept its slots exclusive, the first holder is the only one. */
  lemma ExclusiveMeansOne(s: Session, token: string, slot: Option<int>)
    requires ExclusiveSlots(s) && slot.Some?
    ensures OneOtherHolder(s, slot, token)
  {}

  /** Two holders are enough to break it: the second keeps a gamepad just given to someone else. */
  lemma TwoHoldersBreakIt(cfg: Settings)
    ensures exists s: Session, token ::
              && DistinctTokens(s) && GoodSlots(cfg, s) && IsMember(s, token)
              && var after := AssignSlot(s, Some(token), Some(1));
                 Holds(after, token, 1) && Holds(after, "c", 1) && token != "c"
  {
    var a := Seat("a", "0", None, true, 0.0, None, "", "participant");
    var b := Seat("b", "0", None, true, 0.0, Some(1), "", "participant");
    var c := Seat("c", "0", None, true, 0.0, Some(1), "", "participant");
    var s := Session("k", "0", None, [a, b, c], None, None);
    assert ByToken("a")(a);
    assert s.viewers[0] == a && s.viewers[1] == b;
    var after := AssignSlot(s, Some("a"), Some(1));
    assert HoldsButNot(Some(1), "a")(b);
    assert Freed(s, Some(1), "a") == Some(1);
    AssignedAt(s, "a", Some(1), 0);
    AssignedAt(s, "a", Some(1), 2);
    assert Holds(after, "a", 1) && Holds(after, "c", 1);
  }
}
