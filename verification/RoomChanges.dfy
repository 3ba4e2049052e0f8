/** What each event of a room changes, told by the members it names, and what it leaves alone. */
module RoomChanges {
  import opened Lists
  import opened Options
  import opened Seats
  import opened Admission
  import opened RoomRuns

  // ---- Whom an id names ----

  /** The id is member `t`'s: the controller's, or that of the first viewer who carries it. */
  ghost predicate Names(s: Session, id: string, t: string) {
    if id == s.controllerPublicId then t == s.controllerToken
    else
      exists i :: 0 <= i < |s.viewers| && s.viewers[i].publicId == id && s.viewers[i].token == t
                  && forall k :: 0 <= k < i ==> s.viewers[k].publicId != id
  }

  lemma ResolveMeans(s: Session, id: string)
    ensures ResolvePublicId(s, Some(id)).Some? ==> Names(s, id, ResolvePublicId(s, Some(id)).value)
    ensures forall t :: Names(s, id, t) ==> ResolvePublicId(s, Some(id)) == Some(t)
  {
    var at := FirstAt(s.viewers, ByPublicId(id));
    assert forall k :: 0 <= k < |s.viewers| ==> (ByPublicId(id)(s.viewers[k]) <==> s.viewers[k].publicId == id);
    forall t | Names(s, id, t) && id != s.controllerPublicId ensures ResolvePublicId(s, Some(id)) == Some(t) {
      var i :| 0 <= i < |s.viewers| && s.viewers[i].publicId == id && s.viewers[i].token == t
               && forall k :: 0 <= k < i ==> s.viewers[k].publicId != id;
      assert at == Some(i);
    }
  }

  // ---- Roles ----

  /** Nothing but the named roles differs. */
  predicate OnlyMkDiffers(s: Session, s': Session) { s' == s.(mkOwner := s'.mkOwner) }

  predicate OnlySpeakerDiffers(s: Session, s': Session) { s' == s.(speaker := s'.speaker) }

  /** Handing the mouse and keyboard over: a viewer named becomes their owner, and anything else, an
      unknown id as well, gives them back to the controller. Nothing else changes. */
  lemma MkMeans(cfg: Settings, s: Session, id: Option<string>, t: string)
    requires DistinctTokens(s)
    ensures var s' := OnSession(cfg, s, Mk(id));
            && OnlyMkDiffers(s, s')
            && (s'.mkOwner == Some(t) <==> id.Some? && Names(s, id.value, t) && t != s.controllerToken)
  {
    if id.Some? { ResolveMeans(s, id.value); }
  }

  /** Naming the speaker: the member named becomes it, no id clears it, and an unknown id changes
      nothing. Nothing else changes. */
  lemma SpeakerMeans(cfg: Settings, s: Session, id: Option<string>)
    ensures var s' := OnSession(cfg, s, Speaker(id));
            && OnlySpeakerDiffers(s, s')
            && (id.None? ==> s'.speaker.None?)
            && (id.Some? ==>
                  if exists t :: Names(s, id.value, t) then s'.speaker.Some? && Names(s, id.value, s'.speaker.value)
                  else s' == s)
  {
    if id.Some? { ResolveMeans(s, id.value); }
  }

  /** A viewer renamed keeps all but the name, and only a name of 1 to 25 characters is taken. */
  lemma NameMeans(cfg: Settings, s: Session, token: string, name: string, i: nat)
    requires DistinctTokens(s) && i < |s.viewers|
    ensures var s' := OnSession(cfg, s, Name(token, name));
            && |s'.viewers| == |s.viewers| && s' == s.(viewers := s'.viewers)
            && s'.viewers[i] == if s.viewers[i].token == token && 1 <= |name| <= 25 then s.viewers[i].(username := name)
                                else s.viewers[i]
  {
    var at := FirstAt(s.viewers, ByToken(token));
    assert forall k :: 0 <= k < |s.viewers| ==> (ByToken(token)(s.viewers[k]) <==> s.viewers[k].token == token);
  }

  // ---- Gamepads ----

  /** The same members, roles and details; only who holds which gamepad may differ. */
  ghost predicate OnlySlotsDiffer(s: Session, s': Session) {
    && |s'.viewers| == |s.viewers|
    && s' == s.(controllerSlot := s'.controllerSlot, viewers := s'.viewers)
    && forall i :: 0 <= i < |s.viewers| ==> s'.viewers[i] == s.viewers[i].(slot := s'.viewers[i].slot)
  }

  lemma ReassignedMeans(s: Session, token: string, slot: Option<int>, u: string, k: int)
    requires DistinctTokens(s) && IsMember(s, token)
    ensures var s' := Reassigned(s, Some(token), slot);
            && OnlySlotsDiffer(s, s')
            && (Holds(s', u, k) <==> if u == token then slot == Some(k) else Holds(s, u, k) && slot != Some(k))
  {
    var s' := Reassigned(s, Some(token), slot);
    assert forall i :: 0 <= i < |s.viewers| ==> s'.viewers[i] == Reslot(s.viewers[i], token, slot);
    if token != s.controllerToken {
      var m := FirstAt(s.viewers, ByToken(token)).value;
      assert ByToken(token)(s.viewers[m]) && s'.viewers[m].token == token && s'.viewers[m].slot == slot;
    }
    if u != token && Holds(s, u, k) && slot != Some(k) && u != s.controllerToken {
      var i :| 0 <= i < |s.viewers| && s.viewers[i].token == u && s.viewers[i].slot == Some(k);
      assert s'.viewers[i].token == u && s'.viewers[i].slot == Some(k);
    }
  }

  /** Assigning gamepad `n` to the member an id names: that member holds it and no other, whoever held it
      before holds none, and everyone else holds what they held. Only whole numbers within the
      configured gamepads count; an unknown id or another value changes nothing. */
  lemma SlotMeans(cfg: Settings, s: Session, id: Option<string>, raw: RawSlot, u: string, k: int)
    requires Ok(cfg, s)
    ensures var s' := OnSession(cfg, s, Slot(id, raw));
            && OnlySlotsDiffer(s, s')
            && (raw.Junk? || (raw.Number? && !(1 <= raw.n <= cfg.gamepadSlots)) || id.None? ==> s' == s)
            && (id.Some? && (forall t :: !Names(s, id.value, t)) ==> s' == s)
            && (forall t :: id.Some? && Names(s, id.value, t) ==>
                  && (raw.Nothing? ==> (Holds(s', u, k) <==> u != t && Holds(s, u, k)))
                  && (raw.Number? && 1 <= raw.n <= cfg.gamepadSlots ==>
                        (Holds(s', u, k) <==> if u == t then k == raw.n else Holds(s, u, k) && k != raw.n)))
  {
    var slot := GamepadSlot(cfg, raw);
    if id.Some? {
      ResolveMeans(s, id.value);
      var target := ResolvePublicId(s, id);
      ResolvesToMember(s, id);
      if slot.0 && target.Some? {
        AssignSlotOk(cfg, s, target, slot.1);
        ReassignedMeans(s, target.value, slot.1, u, k);
      }
    }
  }

  // ---- Coming and going ----

  /** A session begins with the controller on gamepad 1, in charge of everything, and nobody else. */
  lemma ActivateMeans(cfg: Settings, r: Room, token: string, id: string)
    ensures var r' := Apply(cfg, r, Activate(token, id));
            && r'.session.Some? && r'.online == r.online && r'.controller == r.controller
            && r'.minted == r.minted + {token}
            && var s := r'.session.value;
               && s.controllerToken == token && s.controllerPublicId == id && s.viewers == []
               && (forall t, k :: Holds(s, t, k) <==> t == token && k == 1)
               && s.mkOwner.None? && s.speaker.None? && TokenMap(s) == map[token := Entry(true, Some(1), true)]
  {}

  /** A viewer whose live socket closes keeps the seat, out of touch from now on, without slot or role;
      no other seat, role or socket is touched. */
  lemma CloseMeans(cfg: Settings, r: Room, token: string, conn: nat, now: real, i: nat)
    requires r.session.Some? && Ok(cfg, r.session.value) && i < |r.session.value.viewers|
    requires token in r.online && r.online[token] == conn && token != r.session.value.controllerToken
    ensures var s, r' := r.session.value, Apply(cfg, r, ViewerCloses(token, conn, now));
            && r'.online == r.online - {token} && r'.controller == r.controller && r'.minted == r.minted
            && r'.session.Some?
            && var s' := r'.session.value;
               && |s'.viewers| == |s.viewers|
               && s' == s.(viewers := s'.viewers, mkOwner := s'.mkOwner, speaker := s'.speaker)
               && s'.speaker == (if s.speaker == Some(token) then None else s.speaker)
               && s'.mkOwner == (if s.mkOwner == Some(token) then None else s.mkOwner)
               && s'.viewers[i] == if s.viewers[i].token == token then s.viewers[i].(slot := None, lastSeen := now)
                                   else s.viewers[i]
  {
    var s := r.session.value;
    var at := FirstAt(s.viewers, ByToken(token));
    assert forall k :: 0 <= k < |s.viewers| ==> (ByToken(token)(s.viewers[k]) <==> s.viewers[k].token == token);
  }

  // ---- Where seats come from ----

  /** The two are one seat: what was minted with it is the same. */
  predicate SameSeat(u: Seat, v: Seat) {
    && u.token == v.token && u.publicId == v.publicId && u.userId == v.userId
    && u.anonymous == v.anonymous && u.permission == v.permission
  }

  /** The arrival the seat was minted for. */
  predicate MintedFor(v: Seat, e: Event) {
    && e.Arrive? && v.token == e.seat.token && v.publicId == e.seat.publicId && v.userId == e.joiner.userId
    && (v.anonymous <==> e.joiner.userId.None? && e.joiner.username == "") && v.permission == e.permission
  }

  lemma AssignedSeat(s: Session, target: Option<string>, slot: Option<int>, i: nat)
    requires i < |AssignSlot(s, target, slot).viewers|
    ensures i < |s.viewers| && SameSeat(s.viewers[i], AssignSlot(s, target, slot).viewers[i])
  {}

  lemma SessionSeat(cfg: Settings, s: Session, e: Event, i: nat)
    requires i < |OnSession(cfg, s, e).viewers|
    ensures i < |s.viewers| && SameSeat(s.viewers[i], OnSession(cfg, s, e).viewers[i])
  {
    match e
    case Slot(id, raw) =>
      var slot := GamepadSlot(cfg, raw);
      if slot.0 { AssignedSeat(s, ResolvePublicId(s, id), slot.1, i); }
    case _ =>
  }

  ghost predicate SeatIn(r: Room, v: Seat) { r.session.Some? && v in r.session.value.viewers }

  /** The event begins or ends a session. */
  predicate Turns(e: Event) { e.Activate? || e.End? }

  /** A seat after an event was minted by it, or was there before in the same session. */
  lemma SeatBefore(cfg: Settings, r: Room, e: Event, v: Seat)
    requires SeatIn(Apply(cfg, r, e), v)
    ensures MintedFor(v, e) || (!Turns(e) && exists u :: SeatIn(r, u) && SameSeat(u, v))
  {
    match e
    case Activate(_, _) =>
    case End =>
    case Arrive(j, permission, m, now) =>
      if r.session.Some? {
        OneSeatPerUser(cfg, r, j, permission, m, now, v);
        if Some(v) == Join(cfg, r, j, permission, m, now).1 {
          GrantedSeat(cfg, r, j, permission, m, now);
        } else {
          assert SeatIn(r, v) && SameSeat(v, v);
        }
      }
    case ViewerCloses(token, conn, now) =>
      var s' := Apply(cfg, r, e).session.value;
      var i :| 0 <= i < |s'.viewers| && s'.viewers[i] == v;
      assert SeatIn(r, r.session.value.viewers[i]) && SameSeat(r.session.value.viewers[i], v);
    case Slot(_, _) => SessionSeatBefore(cfg, r, e, v);
    case Mk(_) => SessionSeatBefore(cfg, r, e, v);
    case Speaker(_) => SessionSeatBefore(cfg, r, e, v);
    case Name(_, _) => SessionSeatBefore(cfg, r, e, v);
    case _ => assert SeatIn(r, v) && SameSeat(v, v);
  }

  lemma SessionSeatBefore(cfg: Settings, r: Room, e: Event, v: Seat)
    requires e.Slot? || e.Mk? || e.Speaker? || e.Name?
    requires SeatIn(Apply(cfg, r, e), v)
    ensures exists u :: SeatIn(r, u) && SameSeat(u, v)
  {
    var s' := OnSession(cfg, r.session.value, e);
    var i :| 0 <= i < |s'.viewers| && s'.viewers[i] == v;
    SessionSeat(cfg, r.session.value, e, i);
    assert SeatIn(r, r.session.value.viewers[i]);
  }

  /** Over every run, each seat is the one minted for some arrival of this very session, and has been that
      guest's or user's since. */
  lemma {:induction false} SeatsAreMinted(cfg: Settings, events: seq<Event>, v: Seat) returns (n: nat)
    requires SeatIn(Replay(cfg, events), v)
    ensures n < |events| && MintedFor(v, events[n]) && forall m :: n < m < |events| ==> !Turns(events[m])
  {
    var last := |events| - 1;
    n := last;
    SeatBefore(cfg, Replay(cfg, events[..last]), events[last], v);
    if !MintedFor(v, events[last]) {
      var u :| SeatIn(Replay(cfg, events[..last]), u) && SameSeat(u, v);
      n := SeatsAreMinted(cfg, events[..last], u);
    }
  }

  /** Over every run, a seat a join takes from somebody else was minted for a guest with neither id nor name. */
  lemma OnlyGuestsMakeWay(cfg: Settings, events: seq<Event>, j: Joiner, permission: string, m: Minted, now: real,
                          i: nat)
    returns (n: nat)
    requires FreshThroughout(cfg, events) && Replay(cfg, events).session.Some?
    requires i < |Replay(cfg, events).session.value.viewers|
    requires var v := Replay(cfg, events).session.value.viewers[i];
             && !OneUser(j.userId, j.username, v)
             && v !in Join(cfg, Replay(cfg, events), j, permission, m, now).0.session.value.viewers
    ensures var v := Replay(cfg, events).session.value.viewers[i];
            && n < |events| && events[n].Arrive? && events[n].seat.token == v.token
            && events[n].joiner.userId.None? && events[n].joiner.username == ""
  {
    var r := Replay(cfg, events);
    RunOk(cfg, events);
    ReclaimedSeat(cfg, r, j, permission, m, now, i);
    n := SeatsAreMinted(cfg, events, r.session.value.viewers[i]);
  }

  /** No two seats are one user's, by id. */
  ghost predicate OneSeatEach(r: Room) {
    forall v, w :: SeatIn(r, v) && SeatIn(r, w) && v.userId.Some? && v.userId == w.userId ==> v.token == w.token
  }

  lemma ArrivalSeats(cfg: Settings, r: Room, e: Event, v: Seat, w: Seat)
    requires OneSeatEach(r) && e.Arrive? && SeatIn(Apply(cfg, r, e), v) && SeatIn(Apply(cfg, r, e), w)
    requires v.userId.Some? && v.userId == w.userId
    ensures v.token == w.token
  {
    if r.session.Some? {
      OneSeatPerUser(cfg, r, e.joiner, e.permission, e.seat, e.now, v);
      OneSeatPerUser(cfg, r, e.joiner, e.permission, e.seat, e.now, w);
      if Join(cfg, r, e.joiner, e.permission, e.seat, e.now).1.Some? {
        GrantedSeat(cfg, r, e.joiner, e.permission, e.seat, e.now);
      }
    }
  }

  lemma StepOneSeatEach(cfg: Settings, r: Room, e: Event)
    requires OneSeatEach(r)
    ensures OneSeatEach(Apply(cfg, r, e))
  {
    var r' := Apply(cfg, r, e);
    forall v, w | SeatIn(r', v) && SeatIn(r', w) && v.userId.Some? && v.userId == w.userId ensures v.token == w.token {
      if e.Arrive? {
        ArrivalSeats(cfg, r, e, v, w);
      } else {
        SeatBefore(cfg, r, e, v);
        SeatBefore(cfg, r, e, w);
        var a :| SeatIn(r, a) && SameSeat(a, v);
        var b :| SeatIn(r, b) && SameSeat(b, w);
      }
    }
  }

  /** Over every run, a user known by an id has one seat at most. */
  lemma {:induction false} UsersSitOnce(cfg: Settings, events: seq<Event>)
    ensures OneSeatEach(Replay(cfg, events))
  {
    if events == [] {
    } else {
      UsersSitOnce(cfg, events[..|events| - 1]);
      StepOneSeatEach(cfg, Replay(cfg, events[..|events| - 1]), events[|events| - 1]);
    }
  }

  // ---- Which session is on ----

  /** The session of this controller token began at `n`, and none has begun or ended since. */
  ghost predicate SessionSince(events: seq<Event>, n: int, token: string) {
    && 0 <= n < |events| && events[n].Activate? && events[n].token == token
    && forall m :: n < m < |events| ==> !Turns(events[m])
  }

  ghost predicate IsOn(r: Room, token: string) { r.session.Some? && r.session.value.controllerToken == token }

  lemma StaysOn(cfg: Settings, r: Room, e: Event, token: string)
    requires !Turns(e)
    ensures IsOn(Apply(cfg, r, e), token) <==> IsOn(r, token)
  {
    if e.Arrive? && r.session.Some? {
      JoinKeepsSession(cfg, r, e.joiner, e.permission, e.seat, e.now);
    }
  }

  lemma JoinKeepsSession(cfg: Settings, r: Room, j: Joiner, permission: string, m: Minted, now: real)
    requires r.session.Some?
    ensures var after := Join(cfg, r, j, permission, m, now).0;
            after.session.Some? && after.session.value.controllerToken == r.session.value.controllerToken
  {}

  /** Over every run, a session is on exactly when one has begun and none has begun or ended since, and it is
      the one that began then. */
  lemma {:induction false} SessionOnRecord(cfg: Settings, events: seq<Event>, token: string)
    ensures IsOn(Replay(cfg, events), token) <==> exists n :: SessionSince(events, n, token)
  {
    if events == [] {
    } else {
      var before, e := events[..|events| - 1], events[|events| - 1];
      SessionOnRecord(cfg, before, token);
      if Turns(e) {
        if e.Activate? && e.token == token { assert SessionSince(events, |before|, token); }
      } else {
        StaysOn(cfg, Replay(cfg, before), e, token);
        forall n ensures SessionSince(events, n, token) <==> SessionSince(before, n, token) {
          assert forall m :: 0 <= m < |before| ==> before[m] == events[m];
        }
      }
    }
  }

  // ---- Whose socket is on record ----

  /** The controller's socket opened at `n`, and since then none replaced it, it has not closed, and the
      room was not reset. */
  ghost predicate ControllerSince(events: seq<Event>, n: int, conn: nat) {
    && 0 <= n < |events| && events[n] == ControllerOpens(conn)
    && forall m :: n < m < |events| ==> !Unseats(events[m], conn)
  }

  ghost predicate Unseats(e: Event, conn: nat) { e.ControllerOpens? || e.Forget? || e == ControllerCloses(conn) }

  /** Over every run the controller's socket on record is exactly the one that opened last, until it closes
      or the room is reset: the close of a socket already replaced clears nothing. */
  lemma {:induction false} ControllerOnRecord(cfg: Settings, events: seq<Event>, conn: nat)
    ensures Replay(cfg, events).controller == Some(conn) <==> exists n :: ControllerSince(events, n, conn)
  {
    if events == [] {
    } else {
      var before, e := events[..|events| - 1], events[|events| - 1];
      ControllerOnRecord(cfg, before, conn);
      JoinKeepsController(cfg, Replay(cfg, before), e);
      if e == ControllerOpens(conn) {
        assert ControllerSince(events, |events| - 1, conn);
      } else {
        forall n ensures ControllerSince(events, n, conn) <==>
                           ControllerSince(before, n, conn) && !Unseats(e, conn)
        {
          assert forall m :: 0 <= m < |before| ==> before[m] == events[m];
          assert events[|events| - 1] == e;
        }
      }
    }
  }

  lemma JoinKeepsController(cfg: Settings, r: Room, e: Event)
    ensures e.Arrive? && r.session.Some? ==>
              Join(cfg, r, e.joiner, e.permission, e.seat, e.now).0.controller == r.controller
  {}

  /** A viewer's socket opened at `n`, and since then none of the same token replaced it, it has not
      closed, and the room was not reset. */
  ghost predicate ViewerSince(events: seq<Event>, n: int, token: string, conn: nat) {
    && 0 <= n < |events| && events[n] == ViewerOpens(token, conn)
    && forall m :: n < m < |events| ==> !Supersedes(events[m], token, conn)
  }

  ghost predicate Supersedes(e: Event, token: string, conn: nat) {
    e.Forget? || (e.ViewerOpens? && e.token == token) || (e.ViewerCloses? && e.token == token && e.conn == conn)
  }

  /** Over every run a viewer's socket on record is the one its token opened last, and it has not closed since. */
  lemma {:induction false} ViewerOnRecord(cfg: Settings, events: seq<Event>, token: string)
    requires token in Replay(cfg, events).online
    ensures exists n :: ViewerSince(events, n, token, Replay(cfg, events).online[token])
  {
    var before, e := events[..|events| - 1], events[|events| - 1];
    var r, conn := Replay(cfg, before), Replay(cfg, events).online[token];
    if e == ViewerOpens(token, conn) {
      assert ViewerSince(events, |before|, token, conn);
    } else {
      JoinOpensNothing(cfg, r, e);
      assert token in r.online && r.online[token] == conn && !Supersedes(e, token, conn);
      ViewerOnRecord(cfg, before, token);
      var n :| ViewerSince(before, n, token, conn);
      assert ViewerSince(events, n, token, conn);
    }
  }

  lemma JoinOpensNothing(cfg: Settings, r: Room, e: Event)
    ensures e.Arrive? && r.session.Some? ==>
              forall t :: t in Join(cfg, r, e.joiner, e.permission, e.seat, e.now).0.online ==>
                t in r.online && Join(cfg, r, e.joiner, e.permission, e.seat, e.now).0.online[t] == r.online[t]
  {}
}
