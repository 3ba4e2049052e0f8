/** Every run of a room: activate, join, reclaim, assign, connect, replace, disconnect, end. */
module RoomRuns {
  import opened Lists
  import opened Options
  import opened Seats
  import opened Admission

  // ---- Roles ----

  /** Hand the mouse and keyboard over; an unknown id, or that of the controller, gives them back. */
  function AssignMk(s: Session, target: Option<string>): Session {
    s.(mkOwner := if target == Some(s.controllerToken) then None else target)
  }

  /** Name the speaker; no id clears the role, and an unknown one is ignored. */
  function SetSpeaker(s: Session, id: Option<string>): Session {
    var target := ResolvePublicId(s, id);
    if id.Some? && target.None? then s else s.(speaker := target)
  }

  const MAX_USERNAME_CHARS := 25

  function Rename(s: Session, token: string, name: string): Session {
    var i := FirstAt(s.viewers, ByToken(token));
    if i.Some? && 1 <= |name| <= MAX_USERNAME_CHARS then
      s.(viewers := s.viewers[i.value := s.viewers[i.value].(username := name)])
    else s
  }

  // ---- Sockets ----

  /** A slot is given up on disconnect if it is one at all; 0 would pass for none. */
  function GivenUp(slot: Option<int>): Option<int> { if slot == Some(0) then slot else None }

  /** A seat whose live socket is gone gives up its roles and its slot, and notes when. */
  function Depart(s: Session, token: string, now: real): Session {
    var i := FirstAt(s.viewers, ByToken(token));
    var quiet := s.(speaker := Without(s.speaker, {token}));
    if i.None? then quiet
    else
      var v := s.viewers[i.value];
      quiet.(viewers := s.viewers[i.value := v.(lastSeen := now, slot := GivenUp(v.slot))],
             mkOwner := Without(s.mkOwner, {token}))
  }

  predicate IsLive(r: Room, token: string, conn: nat) { token in r.online && r.online[token] == conn }

  function Teardown(r: Room, token: string, conn: nat, now: real): Room {
    if !IsLive(r, token, conn) then r
    else
      r.(online := r.online - {token},
         session := if r.session.Some? then Some(Depart(r.session.value, token, now)) else None)
  }

  // ---- Events ----

  /** What happens to a room between two awaits. */
  datatype Event =
    | Activate(token: string, publicId: string)
    | End
    | Forget
    | Arrive(joiner: Joiner, permission: string, seat: Minted, now: real)
    | ControllerOpens(conn: nat)
    | ViewerOpens(token: string, conn: nat)
    | Slot(target: Option<string>, raw: RawSlot)
    | Mk(target: Option<string>)
    | Speaker(target: Option<string>)
    | Name(token: string, name: string)
    | ControllerCloses(conn: nat)
    | ViewerCloses(token: string, conn: nat, now: real)

  function NewSession(token: string, publicId: string): Session {
    Session(token, publicId, Some(1), [], None, None)
  }

  function OnSession(cfg: Settings, s: Session, e: Event): Session {
    match e
    case Slot(id, raw) =>
      var slot := GamepadSlot(cfg, raw);
      if slot.0 then AssignSlot(s, ResolvePublicId(s, id), slot.1) else s
    case Mk(id) => AssignMk(s, ResolvePublicId(s, id))
    case Speaker(id) => SetSpeaker(s, id)
    case Name(token, name) => Rename(s, token, name)
    case _ => s
  }

  function Apply(cfg: Settings, r: Room, e: Event): Room {
    match e
    case Activate(token, id) => r.(session := Some(NewSession(token, id)), minted := r.minted + {token})
    case End => r.(session := None)
    case Forget => r.(controller := None, online := map[])
    case Arrive(j, permission, seat, now) => if r.session.Some? then Join(cfg, r, j, permission, seat, now).0 else r
    case ControllerOpens(conn) => r.(controller := Some(conn))
    case ViewerOpens(token, conn) => r.(online := r.online[token := conn])
    case ControllerCloses(conn) => if r.controller == Some(conn) then r.(controller := None) else r
    case ViewerCloses(token, conn, now) => Teardown(r, token, conn, now)
    case _ => if r.session.Some? then r.(session := Some(OnSession(cfg, r.session.value, e))) else r
  }

  /** A token is never minted twice. */
  predicate Fresh(r: Room, e: Event) {
    match e
    case Activate(token, _) => token !in r.minted
    case Arrive(_, _, seat, _) => seat.token !in r.minted
    case _ => true
  }

  const EMPTY_ROOM := Room(None, None, map[], {})

  function After(cfg: Settings, r: Room, events: seq<Event>): Room {
    if events == [] then r else Apply(cfg, After(cfg, r, events[..|events| - 1]), events[|events| - 1])
  }

  function Replay(cfg: Settings, events: seq<Event>): Room { After(cfg, EMPTY_ROOM, events) }

  ghost predicate FreshThroughout(cfg: Settings, events: seq<Event>) {
    forall n :: 0 <= n < |events| ==> Fresh(Replay(cfg, events[..n]), events[n])
  }

  // ---- Every step keeps the rules ----

  /** The same seats with other details: tokens as they were, and no slot taken that was not given. */
  ghost predicate SameTokens(a: seq<Seat>, b: seq<Seat>) {
    |a| == |b| && forall i :: 0 <= i < |a| ==> a[i].token == b[i].token
  }

  lemma SameSeated(a: seq<Seat>, b: seq<Seat>, token: string)
    requires SameTokens(a, b)
    ensures Seated(a, token) <==> Seated(b, token)
  {
    var i, k := FirstAt(a, ByToken(token)), FirstAt(b, ByToken(token));
    assert i.Some? ==> ByToken(token)(b[i.value]);
    assert k.Some? ==> ByToken(token)(a[k.value]);
  }

  lemma RolesCarryOver(s: Session, s': Session)
    requires RolesHeld(s) && s'.controllerToken == s.controllerToken && SameTokens(s.viewers, s'.viewers)
    requires s'.mkOwner == s.mkOwner || s'.mkOwner == None
    requires s'.speaker == s.speaker || s'.speaker == None
    ensures RolesHeld(s')
  {
    if s'.mkOwner.Some? { SameSeated(s.viewers, s'.viewers, s'.mkOwner.value); }
    if s'.speaker.Some? { SameSeated(s.viewers, s'.viewers, s'.speaker.value); }
  }

  lemma ReassignedSeats(s: Session, token: string, slot: Option<int>)
    requires DistinctTokens(s) && ExclusiveSlots(s) && IsMember(s, token)
    ensures ExclusiveSlots(Reassigned(s, Some(token), slot))
  {
    var s' := Reassigned(s, Some(token), slot);
    forall i, j | 0 <= i < j < |s.viewers|
      ensures s'.viewers[i].slot.Some? ==> s'.viewers[i].slot != s'.viewers[j].slot
    {
      var v, w := s.viewers[i], s.viewers[j];
      assert v.token != w.token && (v.slot.Some? ==> v.slot != w.slot);
      assert s'.viewers[i] == Reslot(v, token, slot) && s'.viewers[j] == Reslot(w, token, slot);
    }
    forall i | 0 <= i < |s.viewers| ensures s'.viewers[i].slot.Some? ==> s'.viewers[i].slot != s'.controllerSlot {
      assert s'.viewers[i] == Reslot(s.viewers[i], token, slot);
    }
  }

  lemma ReassignedOk(cfg: Settings, s: Session, token: string, slot: Option<int>)
    requires Ok(cfg, s) && IsMember(s, token) && GoodSlot(cfg, slot)
    ensures Ok(cfg, Reassigned(s, Some(token), slot))
  {
    RolesCarryOver(s, Reassigned(s, Some(token), slot));
    ReassignedSeats(s, token, slot);
  }

  lemma SlotFreed(s: Session, token: string)
    requires DistinctTokens(s) && IsMember(s, token)
    ensures AssignSlot(s, Some(token), None) == Reassigned(s, Some(token), None)
  {
    var a, b := AssignSlot(s, Some(token), None), Reassigned(s, Some(token), None);
    forall i | 0 <= i < |s.viewers| ensures |a.viewers| == |b.viewers| && a.viewers[i] == b.viewers[i] {
      AssignedAt(s, token, None, i);
    }
    assert |a.viewers| == |b.viewers|;
    assert a.viewers == b.viewers;
  }

  lemma AssignSlotOk(cfg: Settings, s: Session, target: Option<string>, slot: Option<int>)
    requires Ok(cfg, s) && GoodSlot(cfg, slot)
    ensures AssignSlot(s, target, slot) == Reassigned(s, target, slot)
    ensures Ok(cfg, AssignSlot(s, target, slot))
    ensures SameTokens(s.viewers, AssignSlot(s, target, slot).viewers)
  {
    if target.Some? && IsMember(s, target.value) {
      if slot.Some? {
        FirstHolderIsEnough(s, target.value, slot);
        ExclusiveMeansOne(s, target.value, slot);
      } else {
        SlotFreed(s, target.value);
      }
      ReassignedOk(cfg, s, target.value, slot);
    }
  }

  /** A public id only ever resolves to a current member. */
  lemma ResolvesToMember(s: Session, id: Option<string>)
    ensures ResolvePublicId(s, id).Some? ==> IsMember(s, ResolvePublicId(s, id).value)
  {
    if id.Some? && s.controllerPublicId != id.value {
      var i := FirstAt(s.viewers, ByPublicId(id.value));
      assert i.Some? ==> ByToken(s.viewers[i.value].token)(s.viewers[i.value]);
    }
  }

  lemma SeatUpdated(cfg: Settings, s: Session, i: nat, v: Seat)
    requires Ok(cfg, s) && i < |s.viewers| && v.token == s.viewers[i].token
    requires v.slot == s.viewers[i].slot || v.slot == None
    ensures Ok(cfg, s.(viewers := s.viewers[i := v]))
  {
    RolesCarryOver(s, s.(viewers := s.viewers[i := v]));
  }

  lemma DepartOk(cfg: Settings, s: Session, token: string, now: real)
    requires Ok(cfg, s)
    ensures Ok(cfg, Depart(s, token, now))
    ensures Depart(s, token, now).mkOwner != Some(token) && Depart(s, token, now).speaker != Some(token)
    ensures forall slot :: token != s.controllerToken ==> !Holds(Depart(s, token, now), token, slot)
  {
    var i := FirstAt(s.viewers, ByToken(token));
    assert forall k :: 0 <= k < |s.viewers| ==> (ByToken(token)(s.viewers[k]) <==> s.viewers[k].token == token);
    if i.Some? {
      var v := s.viewers[i.value];
      SeatUpdated(cfg, s, i.value, v.(lastSeen := now, slot := GivenUp(v.slot)));
      RolesCarryOver(s.(viewers := s.viewers[i.value := v.(lastSeen := now, slot := GivenUp(v.slot))]),
          Depart(s, token, now));
    }
  }

  lemma OnSessionOk(cfg: Settings, s: Session, e: Event)
    requires Ok(cfg, s)
    ensures Ok(cfg, OnSession(cfg, s, e))
    ensures SameTokens(s.viewers, OnSession(cfg, s, e).viewers)
    ensures OnSession(cfg, s, e).controllerToken == s.controllerToken
  {
    match e
    case Slot(id, raw) =>
      var slot := GamepadSlot(cfg, raw);
      if slot.0 { AssignSlotOk(cfg, s, ResolvePublicId(s, id), slot.1); }
    case Mk(id) => ResolvesToMember(s, id);
    case Speaker(id) => ResolvesToMember(s, id);
    case Name(token, name) =>
      var i := FirstAt(s.viewers, ByToken(token));
      if i.Some? { SeatUpdated(cfg, s, i.value, s.viewers[i.value].(username := name)); }
    case _ =>
  }

  lemma StepOk(cfg: Settings, r: Room, e: Event)
    requires RoomOk(cfg, r) && Fresh(r, e)
    ensures RoomOk(cfg, Apply(cfg, r, e))
  {
    match e
    case Arrive(j, permission, seat, now) =>
      if r.session.Some? { JoinOk(cfg, r, j, permission, seat, now); }
    case ViewerCloses(token, conn, now) =>
      if r.session.Some? { DepartOk(cfg, r.session.value, token, now); }
    case Slot(_, _) => if r.session.Some? { OnSessionOk(cfg, r.session.value, e); }
    case Mk(_) => if r.session.Some? { OnSessionOk(cfg, r.session.value, e); }
    case Speaker(_) => if r.session.Some? { OnSessionOk(cfg, r.session.value, e); }
    case Name(_, _) => if r.session.Some? { OnSessionOk(cfg, r.session.value, e); }
    case _ =>
  }

  lemma {:induction false} RunOk(cfg: Settings, events: seq<Event>)
    requires FreshThroughout(cfg, events)
    ensures RoomOk(cfg, Replay(cfg, events))
  {
    if events == [] {
    } else {
      var n := |events| - 1;
      var init := events[..n];
      forall k | 0 <= k < n ensures Fresh(Replay(cfg, init[..k]), init[k]) {
        assert init[..k] == events[..k];
        assert Fresh(Replay(cfg, events[..k]), events[k]);
      }
      RunOk(cfg, init);
      assert Fresh(Replay(cfg, events[..n]), events[n]);
      StepOk(cfg, Replay(cfg, init), events[n]);
    }
  }

  /** After any run, no gamepad has two holders, the mouse and keyboard are the controller's or a
      current viewer's, the speaker is nobody or a current member, and the viewers fit the cap. */
  lemma InputIsExclusive(cfg: Settings, events: seq<Event>, a: string, b: string, slot: int)
    requires FreshThroughout(cfg, events) && Replay(cfg, events).session.Some?
    ensures var s := Replay(cfg, events).session.value;
            && (Holds(s, a, slot) && Holds(s, b, slot) ==> a == b)
            && RolesHeld(s) && WithinCap(cfg, s) && DistinctTokens(s)
  {
    RunOk(cfg, events);
    var s := Replay(cfg, events).session.value;
    if Holds(s, a, slot) && Holds(s, b, slot) { OneHolder(s, a, b, slot); }
  }

  lemma {:induction false} NeverLiveAgain(cfg: Settings, r: Room, events: seq<Event>, token: string, conn: nat)
    requires !IsLive(r, token, conn)
    requires forall n :: 0 <= n < |events| ==> events[n] != ViewerOpens(token, conn)
    ensures !IsLive(After(cfg, r, events), token, conn)
  {
    if events == [] {
    } else {
      var n := |events| - 1;
      NeverLiveAgain(cfg, r, events[..n], token, conn);
      NotMadeLive(cfg, After(cfg, r, events[..n]), events[n], token, conn);
    }
  }

  lemma NotMadeLive(cfg: Settings, r: Room, e: Event, token: string, conn: nat)
    requires !IsLive(r, token, conn) && e != ViewerOpens(token, conn)
    ensures !IsLive(Apply(cfg, r, e), token, conn)
  {
    match e
    case Arrive(j, permission, seat, now) =>
      assert r.session.Some? ==> Join(cfg, r, j, permission, seat, now).0.online.Items <= r.online.Items;
    case _ =>
  }

  /** A socket replaced by a newer one on its seat's token changes nothing when it goes away,
      whatever the room did in between. */
  lemma ReplacedSocketLeavesNoTrace(cfg: Settings, r: Room, token: string, stale: nat, newer: nat, between: seq<Event>,
                                    now: real)
    requires stale != newer
    requires forall n :: 0 <= n < |between| ==> between[n] != ViewerOpens(token, stale)
    ensures var before := After(cfg, Apply(cfg, r, ViewerOpens(token, newer)), between);
            Apply(cfg, before, ViewerCloses(token, stale, now)) == before
  {
    NeverLiveAgain(cfg, Apply(cfg, r, ViewerOpens(token, newer)), between, token, stale);
  }

  /** Nor does the socket of a token no seat carries: no seat, slot or role changes. */
  lemma StrangeSocketLeavesSessionAlone(cfg: Settings, r: Room, token: string, conn: nat, now: real)
    requires RoomOk(cfg, r) && r.session.Some? && !IsMember(r.session.value, token)
    ensures Apply(cfg, r, ViewerCloses(token, conn, now)).session == r.session
  {}

  // ---- The token map ----

  datatype Entry = Entry(isController: bool, slot: Option<int>, mk: bool)

  function ViewerEntries(m: map<string, Entry>, vs: seq<Seat>, mkOwner: Option<string>): map<string, Entry> {
    if vs == [] then m
    else
      var n := |vs| - 1;
      ViewerEntries(m, vs[..n], mkOwner)[vs[n].token := Entry(false, vs[n].slot, mkOwner == Some(vs[n].token))]
  }

  /** An empty token counts as no owner. */
  function ControllerEntry(s: Session): Entry {
    Entry(true, s.controllerSlot,
          if s.mkOwner.Some? && s.mkOwner.value != "" then s.mkOwner.value == s.controllerToken else true)
  }

  function TokenMap(s: Session): map<string, Entry> {
    ViewerEntries(map[s.controllerToken := ControllerEntry(s)], s.viewers, s.mkOwner)
  }

  lemma {:induction false} ViewerEntriesKeys(m: map<string, Entry>, vs: seq<Seat>, mkOwner: Option<string>)
    ensures ViewerEntries(m, vs, mkOwner).Keys == m.Keys + TokensOf(vs)
  {
    if vs == [] {
    } else {
      var n := |vs| - 1;
      ViewerEntriesKeys(m, vs[..n], mkOwner);
      assert TokensOf(vs) == TokensOf(vs[..n]) + {vs[n].token};
    }
  }

  /** An entry stands unless a later viewer carries its token. */
  lemma {:induction false} EntryStands(m: map<string, Entry>, vs: seq<Seat>, mkOwner: Option<string>, t: string)
    requires t in m && forall i :: 0 <= i < |vs| ==> vs[i].token != t
    ensures t in ViewerEntries(m, vs, mkOwner) && ViewerEntries(m, vs, mkOwner)[t] == m[t]
  {
    if vs == [] {
    } else {
      EntryStands(m, vs[..|vs| - 1], mkOwner, t);
    }
  }

  lemma {:induction false} ViewerEntryAt(m: map<string, Entry>, vs: seq<Seat>, mkOwner: Option<string>, i: nat)
    requires i < |vs| && forall j :: i < j < |vs| ==> vs[j].token != vs[i].token
    ensures vs[i].token in ViewerEntries(m, vs, mkOwner)
    ensures ViewerEntries(m, vs, mkOwner)[vs[i].token] == Entry(false, vs[i].slot, mkOwner == Some(vs[i].token))
  {
    var n := |vs| - 1;
    if i >= n {
    } else {
      ViewerEntryAt(m, vs[..n], mkOwner, i);
    }
  }

  lemma TokenMapIs(s: Session)
    requires DistinctTokens(s)
    ensures var e := TokenMap(s);
            && e.Keys == {s.controllerToken} + TokensOf(s.viewers)
            && e[s.controllerToken] == ControllerEntry(s)
            && (forall i :: 0 <= i < |s.viewers| ==>
                  e[s.viewers[i].token] == Entry(false, s.viewers[i].slot, s.mkOwner == Some(s.viewers[i].token)))
  {
    var first := map[s.controllerToken := ControllerEntry(s)];
    ViewerEntriesKeys(first, s.viewers, s.mkOwner);
    EntryStands(first, s.viewers, s.mkOwner, s.controllerToken);
    forall i | 0 <= i < |s.viewers|
      ensures TokenMap(s)[s.viewers[i].token] == Entry(false, s.viewers[i].slot, s.mkOwner == Some(s.viewers[i].token))
    {
      ViewerEntryAt(first, s.viewers, s.mkOwner, i);
    }
  }

  ghost predicate GrantedOnlyTo(m: map<string, Entry>, token: string) {
    token in m && forall t :: t in m ==> (m[t].mk <==> t == token)
  }

  /** Selkies is told of every member with the slot it holds. */
  lemma TokenMapCovers(s: Session, t: string)
    requires DistinctTokens(s)
    ensures TokenMap(s).Keys == {s.controllerToken} + TokensOf(s.viewers)
    ensures forall slot :: Holds(s, t, slot) <==> t in TokenMap(s) && TokenMap(s)[t].slot == Some(slot)
  {
    TokenMapIs(s);
    var m := TokenMap(s);
    if t in m && t != s.controllerToken {
      var i :| 0 <= i < |s.viewers| && s.viewers[i].token == t;
      assert m[t] == m[s.viewers[i].token];
    }
  }

  /** No two tokens are routed to the same gamepad. */
  lemma NoGamepadTwice(s: Session, t: string, u: string)
    requires DistinctTokens(s) && ExclusiveSlots(s) && t in TokenMap(s) && u in TokenMap(s)
    ensures TokenMap(s)[t].slot == TokenMap(s)[u].slot ==> t == u || TokenMap(s)[t].slot.None?
  {
    TokenMapCovers(s, t);
    TokenMapCovers(s, u);
    var slot := TokenMap(s)[t].slot;
    assert slot == TokenMap(s)[u].slot && slot.Some? ==> Holds(s, t, slot.value) && Holds(s, u, slot.value);
  }

  /** Exactly one token is granted the mouse and keyboard, provided and only
      provided their owner is nobody or a member. */
  lemma OneGrant(s: Session)
    requires DistinctTokens(s) && !IsMember(s, "")
    ensures (exists t :: GrantedOnlyTo(TokenMap(s), t)) <==>
              s.mkOwner.None? || s.mkOwner.value == "" || IsMember(s, s.mkOwner.value)
  {
    TokenMapIs(s);
    var m := TokenMap(s);
    if s.mkOwner.None? || s.mkOwner.value == "" {
      forall i | 0 <= i < |s.viewers| ensures !m[s.viewers[i].token].mk {
        assert m[s.viewers[i].token] == Entry(false, s.viewers[i].slot, s.mkOwner == Some(s.viewers[i].token));
        assert !ByToken("")(s.viewers[i]);
      }
      assert GrantedOnlyTo(m, s.controllerToken);
    } else {
      var o := s.mkOwner.value;
      forall t | t in m ensures m[t].mk <==> t == o {
        if t != s.controllerToken {
          var i :| 0 <= i < |s.viewers| && s.viewers[i].token == t;
          assert m[s.viewers[i].token] == Entry(false, s.viewers[i].slot, s.mkOwner == Some(s.viewers[i].token));
        }
      }
      InMap(s, o);
      assert IsMember(s, o) ==> GrantedOnlyTo(m, o);
    }
  }

  lemma InMap(s: Session, token: string)
    requires DistinctTokens(s)
    ensures token in TokenMap(s) <==> IsMember(s, token)
  {
    TokenMapIs(s);
    var i := FirstAt(s.viewers, ByToken(token));
    if i.Some? {
      assert s.viewers[i.value].token == token;
    } else {
      assert forall k :: 0 <= k < |s.viewers| ==> !ByToken(token)(s.viewers[k]);
    }
  }

  lemma NotSeated(vs: seq<Seat>, token: string)
    requires forall i :: 0 <= i < |vs| ==> vs[i].token != token
    ensures !Seated(vs, token)
  {
    assert forall i :: 0 <= i < |vs| ==> !ByToken(token)(vs[i]);
  }

  /** After any run, the map grants the mouse and keyboard to exactly one member. */
  lemma OneGrantAlways(cfg: Settings, events: seq<Event>)
    requires FreshThroughout(cfg, events) && Replay(cfg, events).session.Some?
    requires "" !in Replay(cfg, events).minted
    ensures exists t :: GrantedOnlyTo(TokenMap(Replay(cfg, events).session.value), t)
  {
    RunOk(cfg, events);
    var s := Replay(cfg, events).session.value;
    NotSeated(s.viewers, "");
    OneGrant(s);
  }
}
