/** The session and its room as the broker keeps them: dicts and lists updated in place between awaits. */
module RoomClass {
  import opened Lists
  import opened Options
  import opened Seats
  import opened Admission
  import opened RoomRuns

  class PlayRoom {
    var live: bool
    var controllerToken: string
    var controllerPublicId: string
    var controllerSlot: Option<int>
    var viewers: seq<Seat>
    var mkOwner: Option<string>
    var speaker: Option<string>
    var controller: Option<nat>
    var online: map<string, nat>
    ghost var minted: set<string>

    ghost function Now(): Session
      reads this
    {
      Session(controllerToken, controllerPublicId, controllerSlot, viewers, mkOwner, speaker)
    }

    ghost function State(): Room
      reads this
    {
      Room(if live then Some(Now()) else None, controller, online, minted)
    }

    constructor ()
      ensures State() == EMPTY_ROOM
    {
      live, controllerToken, controllerPublicId, controllerSlot := false, "", "", None;
      viewers, mkOwner, speaker, controller, online, minted := [], None, None, None, map[], {};
    }

    /** Start a new session: the controller holds gamepad 1 and everything else is empty. */
    method NewSession(token: string, publicId: string)
      modifies this
      ensures State()
           == old(State()).(session := Some(RoomRuns.NewSession(token, publicId)), minted := old(minted) + {token})
    {
      live, controllerToken, controllerPublicId, controllerSlot := true, token, publicId, Some(1);
      viewers, mkOwner, speaker, minted := [], None, None, minted + {token};
    }

    /** The session is over; sockets and controller are left for their own handlers to let go. */
    method RetireSession()
      modifies this
      ensures State() == old(State()).(session := None)
    {
      live := false;
    }

    // ---- Lookups ----

    method FindViewer(token: string) returns (at: Option<nat>)
      ensures at == FirstAt(viewers, ByToken(token))
    {
      for i := 0 to |viewers|
        invariant forall k :: 0 <= k < i ==> !ByToken(token)(viewers[k])
      {
        if viewers[i].token == token {
          return Some(i);
        }
      }
      return None;
    }

    method ResolvePublicId(id: Option<string>) returns (token: Option<string>)
      ensures token == Seats.ResolvePublicId(Now(), id)
    {
      if id.None? {
        return None;
      }
      if controllerPublicId == id.value {
        return Some(controllerToken);
      }
      for i := 0 to |viewers|
        invariant forall k :: 0 <= k < i ==> !ByPublicId(id.value)(viewers[k])
      {
        if viewers[i].publicId == id.value {
          return Some(viewers[i].token);
        }
      }
      return None;
    }

    // ---- Joining ----

    /** Drop what a removed seat held, and detach its socket. */
    method ReleaseSeat(token: string)
      modifies `speaker, `mkOwner, `online
      ensures speaker == Without(old(speaker), {token}) && mkOwner == Without(old(mkOwner), {token})
      ensures online == old(online) - {token}
    {
      if speaker == Some(token) {
        speaker := None;
      }
      if mkOwner == Some(token) {
        mkOwner := None;
      }
      online := online - {token};
    }

    method SplitByUser(j: Joiner) returns (replaced: seq<Seat>, kept: seq<Seat>)
      ensures replaced == Where(viewers, SameUser(j)) && kept == Where(viewers, OtherUser(j))
    {
      replaced, kept := [], [];
      for i := 0 to |viewers|
        invariant replaced == Where(viewers[..i], SameUser(j)) && kept == Where(viewers[..i], OtherUser(j))
      {
        assert viewers[..i + 1][..i] == viewers[..i];
        if IsSameUser(j, viewers[i]) {
          replaced := replaced + [viewers[i]];
        } else {
          kept := kept + [viewers[i]];
        }
      }
      assert viewers[..|viewers|] == viewers;
    }

    /** Replace the joining user's earlier seats. */
    method ReplaceSeats(j: Joiner)
      requires live
      modifies `viewers, `speaker, `mkOwner, `online
      ensures State() == Replaced(old(State()), j)
    {
      var replaced, kept := SplitByUser(j);
      viewers := kept;
      for i := 0 to |replaced|
        invariant speaker == Without(old(speaker), TokensOf(replaced[..i]))
        invariant mkOwner == Without(old(mkOwner), TokensOf(replaced[..i]))
        invariant online == old(online) - TokensOf(replaced[..i])
        invariant viewers == kept
      {
        assert TokensOf(replaced[..i + 1]) == TokensOf(replaced[..i]) + {replaced[i].token};
        ReleaseSeat(replaced[i].token);
      }
      assert replaced[..|replaced|] == replaced;
    }

    /** The seat to reclaim for an arrival at the cap. */
    method StalestSeat(now: real) returns (stale: Option<nat>)
      ensures stale == Stalest(viewers, online.Keys, now)
    {
      stale := None;
      for i := 0 to |viewers|
        invariant stale == Stalest(viewers[..i], online.Keys, now)
      {
        assert viewers[..i + 1][..i] == viewers[..i];
        var v := viewers[i];
        if v.anonymous && v.token !in online && now - v.lastSeen >= SEAT_RECLAIM_GRACE_SECONDS {
          if stale.None? || v.lastSeen < viewers[stale.value].lastSeen {
            stale := Some(i);
          }
        }
      }
      assert viewers[..|viewers|] == viewers;
    }

    /** Seat an arrival, or refuse it at the cap. */
    method AddViewer(cfg: Settings, j: Joiner, permission: string, m: Minted, now: real) returns (seat: Option<Seat>)
      requires live
      modifies `viewers, `speaker, `mkOwner, `online, `minted
      ensures (State(), seat) == Join(cfg, old(State()), j, permission, m, now)
    {
      ReplaceSeats(j);
      if |viewers| >= cfg.maxViewers {
        var stale := StalestSeat(now);
        if stale.None? {
          return None;
        }
        var token := viewers[stale.value].token;
        viewers := viewers[..stale.value] + viewers[stale.value + 1..];
        ReleaseSeat(token);
      }
      var arrival := NewSeat(j, permission, m, now);
      viewers, minted := viewers + [arrival], minted + {m.token};
      return Some(arrival);
    }

    // ---- Slots and roles ----

    /** Take a slot from the first viewer other than `token` that holds it. */
    method FreeHolder(slot: Option<int>, token: string)
      modifies `viewers
      ensures viewers == FreeFirst(old(viewers), slot, token)
    {
      for i := 0 to |viewers|
        invariant viewers == old(viewers)
        invariant forall k :: 0 <= k < i ==> !HoldsButNot(slot, token)(viewers[k])
      {
        if viewers[i].slot == slot && viewers[i].token != token {
          viewers := viewers[i := viewers[i].(slot := None)];
          return;
        }
      }
    }

    method HandleAssignSlot(target: Option<string>, slot: Option<int>)
      requires live
      modifies `controllerSlot, `viewers
      ensures State() == old(State()).(session := Some(AssignSlot(old(Now()), target, slot)))
    {
      if target.None? {
        return;
      }
      var token := target.value;
      var at := None;
      if token != controllerToken {
        at := FindViewer(token);
        if at.None? {
          return;
        }
      }
      TakeSlot(token, slot);
      if at.None? {
        controllerSlot := slot;
      } else {
        StillFirst(old(viewers), viewers, token);
        viewers := viewers[at.value := viewers[at.value].(slot := slot)];
      }
    }

    /** Whoever else holds the slot loses it: the controller, or failing that the first viewer. */
    method TakeSlot(token: string, slot: Option<int>)
      modifies `controllerSlot, `viewers
      ensures viewers == if slot.None? || ControllerGivesWay(old(Now()), slot, token) then old(viewers)
                         else FreeFirst(old(viewers), slot, token)
      ensures controllerSlot == if ControllerGivesWay(old(Now()), slot, token) then None else old(controllerSlot)
    {
      if slot.Some? {
        if controllerSlot == slot && controllerToken != token {
          controllerSlot := None;
        } else {
          FreeHolder(slot, token);
        }
      }
    }

    method HandleAssignMk(target: Option<string>)
      requires live
      modifies `mkOwner
      ensures State() == old(State()).(session := Some(AssignMk(old(Now()), target)))
    {
      var owner := if target == Some(controllerToken) then None else target;
      if mkOwner != owner {
        mkOwner := owner;
      }
    }

    method SetDesignatedSpeaker(id: Option<string>)
      requires live
      modifies `speaker
      ensures State() == old(State()).(session := Some(SetSpeaker(old(Now()), id)))
    {
      var target := ResolvePublicId(id);
      if id.Some? && target.None? {
        return;
      }
      speaker := target;
    }

    // ---- Sockets ----

    /** A viewer's socket opens: it takes the place of an earlier one on the same token. */
    method ConnectViewer(token: string, conn: nat)
      modifies `online
      ensures State() == old(State()).(online := old(online)[token := conn])
    {
      online := online[token := conn];
    }

    /** What a viewer's socket handler does on its way out. */
    method DisconnectViewer(token: string, conn: nat, now: real)
      modifies `online, `speaker, `mkOwner, `viewers
      ensures State() == Teardown(old(State()), token, conn, now)
    {
      if !(token in online && online[token] == conn) {
        return;
      }
      online := online - {token};
      if !live {
        return;
      }
      if speaker == Some(token) {
        speaker := None;
      }
      var at := FindViewer(token);
      if at.Some? {
        var v := viewers[at.value].(lastSeen := now);
        if v.slot.Some? && v.slot.value != 0 {
          v := v.(slot := None);
        }
        viewers := viewers[at.value := v];
        if mkOwner == Some(token) {
          mkOwner := None;
        }
      }
    }

    // ---- Selkies ----

    method BuildTokenMap() returns (m: map<string, Entry>)
      ensures m == TokenMap(Now())
    {
      var owned := mkOwner.Some? && mkOwner.value != "";
      m := map[controllerToken :=
                 Entry(true, controllerSlot, if owned then mkOwner.value == controllerToken else true)];
      ghost var first := m;
      for i := 0 to |viewers|
        invariant m == ViewerEntries(first, viewers[..i], mkOwner)
      {
        assert viewers[..i + 1][..i] == viewers[..i];
        m := m[viewers[i].token := Entry(false, viewers[i].slot, mkOwner == Some(viewers[i].token))];
      }
      assert viewers[..|viewers|] == viewers;
    }
  }

  lemma StillFirst(a: seq<Seat>, b: seq<Seat>, token: string)
    requires SameTokens(a, b)
    ensures FirstAt(a, ByToken(token)) == FirstAt(b, ByToken(token))
  {
    assert forall k :: 0 <= k < |a| ==> (ByToken(token)(a[k]) <==> ByToken(token)(b[k]));
  }
}
