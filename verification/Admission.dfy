/** Seating an arrival: replacing a rejoining user's seat, and reclaiming an idle one at the cap (`add_viewer`). */
module Admission {
  import opened Lists
  import opened Options
  import opened Seats

  /** A session with the sockets of its room, the viewers' by seat token, and every token ever minted. */
  datatype Room = Room(session: Option<Session>, controller: Option<nat>, online: map<string, nat>, minted: set<string>)

  // ---- Giving seats up ----

  function Without(holder: Option<string>, gone: set<string>): Option<string> {
    if holder.Some? && holder.value in gone then None else holder
  }

  /** Keep only `kept`, releasing what the seats with the tokens in `gone` held. */
  function Evict(r: Room, kept: seq<Seat>, gone: set<string>): Room
    requires r.session.Some?
  {
    var s := r.session.value;
    r.(session := Some(s.(viewers := kept, mkOwner := Without(s.mkOwner, gone), speaker := Without(s.speaker, gone))),
       online := r.online - gone)
  }

  // ---- The seat to reclaim ----

  predicate Reclaimable(v: Seat, online: set<string>, now: real) {
    v.anonymous && v.token !in online && now - v.lastSeen >= SEAT_RECLAIM_GRACE_SECONDS
  }

  /** The reclaimable seat out of touch longest, the earliest of several. */
  function Stalest(vs: seq<Seat>, online: set<string>, now: real): (r: Option<nat>)
    ensures r.Some? ==>
              && r.value < |vs| && Reclaimable(vs[r.value], online, now)
              && forall i :: 0 <= i < |vs| && Reclaimable(vs[i], online, now) ==> vs[r.value].lastSeen <= vs[i].lastSeen
    ensures r.Some? ==>
              forall i :: 0 <= i < r.value && Reclaimable(vs[i], online, now) ==> vs[r.value].lastSeen < vs[i].lastSeen
    ensures r.None? ==> forall i :: 0 <= i < |vs| ==> !Reclaimable(vs[i], online, now)
  {
    if vs == [] then None
    else
      var n := |vs| - 1;
      var before := Stalest(vs[..n], online, now);
      if !Reclaimable(vs[n], online, now) || (before.Some? && vs[before.value].lastSeen <= vs[n].lastSeen) then before
      else Some(n)
  }

  // ---- Joining ----

  function NewSeat(j: Joiner, permission: string, m: Minted, now: real): Seat {
    Seat(m.token, m.publicId, j.userId, j.userId.None? && j.username == "", now, None,
         if j.username != "" then j.username else m.username, permission)
  }

  function AddSeat(r: Room, seat: Seat): Room
    requires r.session.Some?
  {
    r.(session := Some(r.session.value.(viewers := r.session.value.viewers + [seat])),
       minted := r.minted + {seat.token})
  }

  /** The room once the joining user's earlier seats are gone. */
  function Replaced(r: Room, j: Joiner): Room
    requires r.session.Some?
  {
    var vs := r.session.value.viewers;
    Evict(r, Where(vs, OtherUser(j)), TokensOf(Where(vs, SameUser(j))))
  }

  /** The room once seat `i` is reclaimed. */
  function Reclaimed(r: Room, i: nat): Room
    requires r.session.Some? && i < |r.session.value.viewers|
  {
    var vs := r.session.value.viewers;
    Evict(r, Remove(vs, i), {vs[i].token})
  }

  /** The room after a join, and the seat it got, if it got one. */
  function Join(cfg: Settings, r: Room, j: Joiner, permission: string, m: Minted, now: real): (Room, Option<Seat>)
    requires r.session.Some?
  {
    var seat := NewSeat(j, permission, m, now);
    var left := Replaced(r, j);
    var vs := left.session.value.viewers;
    if |vs| < cfg.maxViewers then (AddSeat(left, seat), Some(seat))
    else
      var stale := Stalest(vs, left.online.Keys, now);
      if stale.None? then (left, None) else (AddSeat(Reclaimed(left, stale.value), seat), Some(seat))
  }

  // ---- Seats survive as they were ----

  /** `b` is `a` with some seats left out, the rest in their order. */
  ghost predicate Thinned(a: seq<Seat>, b: seq<Seat>, from: seq<nat>) {
    && |from| == |b|
    && (forall i :: 0 <= i < |b| ==> from[i] < |a| && b[i] == a[from[i]])
    && (forall i, j :: 0 <= i < j < |from| ==> from[i] < from[j])
  }

  /** The positions that satisfy `p`, in order. */
  ghost function Picks(vs: seq<Seat>, p: Seat -> bool): (from: seq<nat>)
    ensures forall k :: 0 <= k < |from| ==> from[k] < |vs| && p(vs[from[k]])
    ensures forall i, j :: 0 <= i < j < |from| ==> from[i] < from[j]
  {
    if vs == [] then []
    else
      var n := |vs| - 1;
      Picks(vs[..n], p) + if p(vs[n]) then [n] else []
  }

  lemma {:induction false} PicksAll(vs: seq<Seat>, p: Seat -> bool, i: nat)
    requires i < |vs| && p(vs[i])
    ensures i in Picks(vs, p)
  {
    var n := |vs| - 1;
    if i >= n {
    } else {
      PicksAll(vs[..n], p, i);
    }
  }

  lemma {:induction false} PicksAre(vs: seq<Seat>, p: Seat -> bool)
    ensures Thinned(vs, Where(vs, p), Picks(vs, p))
  {
    if vs == [] {
    } else {
      PicksAre(vs[..|vs| - 1], p);
    }
  }

  lemma WhereThins(vs: seq<Seat>, p: Seat -> bool) returns (from: seq<nat>)
    ensures Thinned(vs, Where(vs, p), from)
    ensures forall i :: 0 <= i < |vs| ==> (i in from <==> p(vs[i]))
    ensures |Where(vs, p)| <= |vs|
  {
    from := Picks(vs, p);
    PicksAre(vs, p);
    ThinnedIsShorter(vs, Where(vs, p), from);
    forall i | 0 <= i < |vs| && p(vs[i]) ensures i in from { PicksAll(vs, p, i); }
  }

  /** Thinning the viewers keeps every rule, as long as no remaining role names a seat left out. */
  lemma ThinnedOk(cfg: Settings, s: Session, kept: seq<Seat>, from: seq<nat>, gone: set<string>)
    requires Ok(cfg, s) && Thinned(s.viewers, kept, from)
    requires forall i :: 0 <= i < |s.viewers| && i !in from ==> s.viewers[i].token in gone
    ensures Ok(cfg, s.(viewers := kept, mkOwner := Without(s.mkOwner, gone), speaker := Without(s.speaker, gone)))
  {
    var s' := s.(viewers := kept, mkOwner := Without(s.mkOwner, gone), speaker := Without(s.speaker, gone));
    forall i, j | 0 <= i < j < |kept|
      ensures kept[i].token != kept[j].token && (kept[i].slot.Some? ==> kept[i].slot != kept[j].slot)
    {
      assert from[i] < from[j];
    }
    forall token | Seated(s.viewers, token) && token !in gone ensures Seated(kept, token) {
      StillSeated(s.viewers, kept, from, token);
    }
    ThinnedIsShorter(s.viewers, kept, from);
  }

  lemma StillSeated(vs: seq<Seat>, kept: seq<Seat>, from: seq<nat>, token: string)
    requires Thinned(vs, kept, from) && Seated(vs, token)
    requires forall i :: 0 <= i < |vs| && vs[i].token == token ==> i in from
    ensures Seated(kept, token)
  {
    var i := FirstAt(vs, ByToken(token)).value;
    assert vs[i].token == token;
    var k :| 0 <= k < |from| && from[k] == i;
    assert ByToken(token)(kept[k]);
  }

  lemma {:induction false} ThinnedIsShorter(vs: seq<Seat>, kept: seq<Seat>, from: seq<nat>)
    requires Thinned(vs, kept, from)
    ensures |kept| <= |vs|
    decreases |vs|
  {
    if kept == [] {
    } else {
      var n := |kept| - 1;
      var cut := from[n];
      assert forall i :: 0 <= i < n ==> from[i] < from[n];
      ThinnedIsShorter(vs[..cut], kept[..n], from[..n]);
    }
  }

  // ---- A seat is added ----

  lemma SeatAdded(cfg: Settings, s: Session, seat: Seat)
    requires Ok(cfg, s) && |s.viewers| < cfg.maxViewers
    requires !IsMember(s, seat.token) && seat.slot.None?
    ensures Ok(cfg, s.(viewers := s.viewers + [seat]))
  {
    var vs := s.viewers + [seat];
    forall i | 0 <= i < |s.viewers| ensures s.viewers[i].token != seat.token {
      assert !ByToken(seat.token)(s.viewers[i]);
    }
    forall token | Seated(s.viewers, token) ensures Seated(vs, token) {
      var i := FirstAt(s.viewers, ByToken(token)).value;
      assert ByToken(token)(vs[i]);
    }
  }

  /** Every seat's token was minted, as was the controller's. */
  ghost predicate AllMinted(r: Room) {
    r.session.Some? ==>
      && r.session.value.controllerToken in r.minted
      && forall i :: 0 <= i < |r.session.value.viewers| ==> r.session.value.viewers[i].token in r.minted
  }

  ghost predicate RoomOk(cfg: Settings, r: Room) {
    (r.session.Some? ==> Ok(cfg, r.session.value)) && AllMinted(r)
  }

  lemma ReplacedOk(cfg: Settings, r: Room, j: Joiner)
    requires r.session.Some? && RoomOk(cfg, r)
    ensures RoomOk(cfg, Replaced(r, j))
    ensures |Replaced(r, j).session.value.viewers| <= |r.session.value.viewers|
  {
    var vs := r.session.value.viewers;
    var from := WhereThins(vs, OtherUser(j));
    var of := WhereThins(vs, SameUser(j));
    var gone := TokensOf(Where(vs, SameUser(j)));
    forall i | 0 <= i < |vs| && i !in from ensures vs[i].token in gone {
      assert i in of;
      var k :| 0 <= k < |of| && of[k] == i;
      assert Where(vs, SameUser(j))[k] == vs[i];
    }
    ThinnedOk(cfg, r.session.value, Where(vs, OtherUser(j)), from, gone);
  }

  lemma ReclaimedOk(cfg: Settings, r: Room, i: nat)
    requires r.session.Some? && RoomOk(cfg, r) && i < |r.session.value.viewers|
    ensures RoomOk(cfg, Reclaimed(r, i))
  {
    var vs := r.session.value.viewers;
    var from := seq(|vs| - 1, k requires 0 <= k < |vs| - 1 => if k < i then k else k + 1);
    forall k | 0 <= k < |vs| && k != i ensures k in from {
      assert from[if k < i then k else k - 1] == k;
    }
    ThinnedOk(cfg, r.session.value, Remove(vs, i), from, {vs[i].token});
  }

  /** A join keeps the room's rules: the cap holds whether the seat was free, replaced or reclaimed. */
  lemma JoinOk(cfg: Settings, r: Room, j: Joiner, permission: string, m: Minted, now: real)
    requires r.session.Some? && RoomOk(cfg, r) && m.token !in r.minted
    ensures RoomOk(cfg, Join(cfg, r, j, permission, m, now).0)
  {
    var left := Replaced(r, j);
    ReplacedOk(cfg, r, j);
    var vs := left.session.value.viewers;
    if |vs| < cfg.maxViewers {
      MintedSeat(cfg, left, NewSeat(j, permission, m, now));
    } else {
      var stale := Stalest(vs, left.online.Keys, now);
      if stale.Some? {
        ReclaimedOk(cfg, left, stale.value);
        MintedSeat(cfg, Reclaimed(left, stale.value), NewSeat(j, permission, m, now));
      }
    }
  }

  lemma MintedSeat(cfg: Settings, r: Room, seat: Seat)
    requires r.session.Some? && RoomOk(cfg, r) && seat.token !in r.minted && seat.slot.None?
    requires |r.session.value.viewers| < cfg.maxViewers
    ensures RoomOk(cfg, AddSeat(r, seat))
  {
    SeatAdded(cfg, r.session.value, seat);
  }

  // ---- Who is refused, and who makes way ----

  /** The joiner and the seat's user are one: the same id, or the same name where one of them has no id. */
  ghost predicate OneUser(id: Option<string>, name: string, v: Seat) {
    (id.Some? && v.userId == id) || ((id.None? || v.userId.None?) && name != "" && name == v.username)
  }

  lemma {:induction false} WhereFewer(vs: seq<Seat>, p: Seat -> bool, i: nat)
    requires i < |vs| && !p(vs[i])
    ensures |Where(vs, p)| < |vs|
  {
    var n := |vs| - 1;
    if i < n {
      WhereFewer(vs[..n], p, i);
    } else {
      var from := WhereThins(vs[..n], p);
    }
  }

  lemma NobodyReplaced(r: Room, j: Joiner)
    requires r.session.Some?
    requires forall i :: 0 <= i < |r.session.value.viewers| ==> !IsSameUser(j, r.session.value.viewers[i])
    ensures Replaced(r, j).session.value.viewers == r.session.value.viewers && Replaced(r, j).online == r.online
  {
    WhereAll(r.session.value.viewers, OtherUser(j));
    WhereNone(r.session.value.viewers, SameUser(j));
  }

  lemma SomebodyReplaced(r: Room, j: Joiner, i: nat)
    requires r.session.Some? && i < |r.session.value.viewers| && IsSameUser(j, r.session.value.viewers[i])
    ensures |Replaced(r, j).session.value.viewers| < |r.session.value.viewers|
  {
    WhereFewer(r.session.value.viewers, OtherUser(j), i);
  }

  /** A join is refused exactly when the user has no seat to replace, the room is at its cap, and
      no seat may be reclaimed. A returning user is therefore never refused. */
  lemma RefusedWhen(cfg: Settings, r: Room, j: Joiner, permission: string, m: Minted, now: real)
    requires r.session.Some? && WithinCap(cfg, r.session.value)
    ensures var vs := r.session.value.viewers;
            Join(cfg, r, j, permission, m, now).1.None? <==>
              && |vs| >= cfg.maxViewers
              && (forall i :: 0 <= i < |vs| ==> !OneUser(j.userId, j.username, vs[i]))
              && (forall i :: 0 <= i < |vs| && vs[i].anonymous && vs[i].token !in r.online ==>
                    now - vs[i].lastSeen < SEAT_RECLAIM_GRACE_SECONDS)
  {
    var vs := r.session.value.viewers;
    if i :| 0 <= i < |vs| && IsSameUser(j, vs[i]) {
      SomebodyReplaced(r, j, i);
    } else {
      NobodyReplaced(r, j);
    }
  }

  /** Another user's seat is still there once the joiner's own are gone, online or not as before. */
  lemma OtherStays(r: Room, j: Joiner, i: nat)
    requires r.session.Some? && DistinctTokens(r.session.value)
    requires i < |r.session.value.viewers| && !IsSameUser(j, r.session.value.viewers[i])
    ensures r.session.value.viewers[i] in Replaced(r, j).session.value.viewers
    ensures r.session.value.viewers[i].token in Replaced(r, j).online <==> r.session.value.viewers[i].token in r.online
  {
    var vs := r.session.value.viewers;
    var from := WhereThins(vs, OtherUser(j));
    var of := WhereThins(vs, SameUser(j));
    assert OtherUser(j)(vs[i]);
    var n :| 0 <= n < |from| && from[n] == i;
    assert Where(vs, OtherUser(j))[n] == vs[i];
    forall k | 0 <= k < |of| ensures Where(vs, SameUser(j))[k].token != vs[i].token {
      assert of[k] in of && SameUser(j)(vs[of[k]]);
      assert of[k] < i || of[k] > i;
    }
  }

  lemma KeptByRemoval<T>(s: seq<T>, n: nat, v: T)
    requires n < |s| && v in s
    ensures v == s[n] || v in Remove(s, n)
  {
    var k :| 0 <= k < |s| && s[k] == v;
    if k < n {
      assert Remove(s, n)[k] == v;
    } else if k > n {
      assert Remove(s, n)[k - 1] == v;
    }
  }

  /** The seat a join reclaims, if it reclaims one. */
  function MakesWay(cfg: Settings, r: Room, j: Joiner, now: real): (v: Option<Seat>)
    requires r.session.Some?
    ensures v.Some? ==>
              && v.value in Replaced(r, j).session.value.viewers
              && Reclaimable(v.value, Replaced(r, j).online.Keys, now)
  {
    var left := Replaced(r, j);
    var vs := left.session.value.viewers;
    if |vs| < cfg.maxViewers then None
    else
      var stale := Stalest(vs, left.online.Keys, now);
      if stale.None? then None else Some(vs[stale.value])
  }

  lemma OnlyOneMakesWay(cfg: Settings, r: Room, j: Joiner, permission: string, m: Minted, now: real, v: Seat)
    requires r.session.Some? && v in Replaced(r, j).session.value.viewers
    ensures MakesWay(cfg, r, j, now) == Some(v) || v in Join(cfg, r, j, permission, m, now).0.session.value.viewers
  {
    var left := Replaced(r, j);
    var vs := left.session.value.viewers;
    var stale := Stalest(vs, left.online.Keys, now);
    if |vs| >= cfg.maxViewers && stale.Some? {
      KeptByRemoval(vs, stale.value, v);
    }
  }

  /** The only other user's seat a join ever takes is anonymous, offline, past the grace window, and
      out of touch at least as long as every other such seat. */
  lemma ReclaimedSeat(cfg: Settings, r: Room, j: Joiner, permission: string, m: Minted, now: real, i: nat)
    requires r.session.Some? && DistinctTokens(r.session.value) && i < |r.session.value.viewers|
    requires !OneUser(j.userId, j.username, r.session.value.viewers[i])
    requires r.session.value.viewers[i] !in Join(cfg, r, j, permission, m, now).0.session.value.viewers
    ensures var vs := r.session.value.viewers;
            && vs[i].anonymous && vs[i].token !in r.online && now - vs[i].lastSeen >= SEAT_RECLAIM_GRACE_SECONDS
            && (forall k ::
                  0 <= k < |vs| && !OneUser(j.userId, j.username, vs[k]) && Reclaimable(vs[k], r.online.Keys, now)
                  ==> vs[i].lastSeen <= vs[k].lastSeen)
            && (forall k :: 0 <= k < |vs| && k != i && !OneUser(j.userId, j.username, vs[k]) ==>
                  vs[k] in Join(cfg, r, j, permission, m, now).0.session.value.viewers)
  {
    var vs := r.session.value.viewers;
    OtherStays(r, j, i);
    OnlyOneMakesWay(cfg, r, j, permission, m, now, vs[i]);
    forall k | 0 <= k < |vs| && !IsSameUser(j, vs[k])
      ensures Reclaimable(vs[k], r.online.Keys, now) ==> vs[i].lastSeen <= vs[k].lastSeen
      ensures k != i ==> vs[k] in Join(cfg, r, j, permission, m, now).0.session.value.viewers
    {
      OtherStays(r, j, k);
      OnlyOneMakesWay(cfg, r, j, permission, m, now, vs[k]);
      assert k != i ==> vs[k].token != vs[i].token;
    }
  }

  /** Nobody makes way while the room has a seat to spare, or for a user who comes back. */
  lemma NobodyMakesWay(cfg: Settings, r: Room, j: Joiner, permission: string, m: Minted, now: real, k: nat)
    requires r.session.Some? && DistinctTokens(r.session.value) && WithinCap(cfg, r.session.value)
    requires var vs := r.session.value.viewers;
             |vs| < cfg.maxViewers || exists i :: 0 <= i < |vs| && OneUser(j.userId, j.username, vs[i])
    requires k < |r.session.value.viewers| && !OneUser(j.userId, j.username, r.session.value.viewers[k])
    ensures r.session.value.viewers[k] in Join(cfg, r, j, permission, m, now).0.session.value.viewers
  {
    var vs := r.session.value.viewers;
    if i :| 0 <= i < |vs| && IsSameUser(j, vs[i]) {
      SomebodyReplaced(r, j, i);
    } else {
      NobodyReplaced(r, j);
    }
    OtherStays(r, j, k);
  }

  // ---- What a join changes, and what it leaves alone ----

  /** The seat a join grants is the joiner's own, freshly minted, holding nothing, and anonymous only
      for want of both an id and a name. It takes its place behind the others. */
  lemma GrantedSeat(cfg: Settings, r: Room, j: Joiner, permission: string, m: Minted, now: real)
    requires r.session.Some? && Join(cfg, r, j, permission, m, now).1.Some?
    ensures var (after, seat) := Join(cfg, r, j, permission, m, now);
            var v := seat.value;
            && v.token == m.token && v.publicId == m.publicId && v.permission == permission
            && v.userId == j.userId && (v.anonymous <==> j.userId.None? && j.username == "")
            && v.username == (if j.username == "" then m.username else j.username)
            && v.lastSeen == now && v.slot.None?
            && after.session.Some? && after.session.value.viewers != []
            && after.session.value.viewers[|after.session.value.viewers| - 1] == v
            && after.minted == r.minted + {m.token}
  {}

  /** Whatever comes of a join, no earlier seat of the joining user is left; a seat the joiner did
      not take over or push out is there exactly as it was. */
  lemma OneSeatPerUser(cfg: Settings, r: Room, j: Joiner, permission: string, m: Minted, now: real, v: Seat)
    requires r.session.Some?
    requires v in Join(cfg, r, j, permission, m, now).0.session.value.viewers
    ensures Some(v) == Join(cfg, r, j, permission, m, now).1
            || (v in r.session.value.viewers && !OneUser(j.userId, j.username, v))
  {
    var left := Replaced(r, j);
    var vs := left.session.value.viewers;
    WhereHolds(r.session.value.viewers, OtherUser(j));
    var stale := Stalest(vs, left.online.Keys, now);
    if v in vs {
      assert OtherUser(j)(v);
    } else if |vs| >= cfg.maxViewers && stale.Some? {
      var rest := Remove(vs, stale.value);
      assert forall k :: 0 <= k < |rest| ==> rest[k] in vs;
    }
  }

  /** A seat's token was there and is no more. */
  ghost predicate Left(a: seq<Seat>, b: seq<Seat>, t: string) { t in TokensOf(a) && t !in TokensOf(b) }

  ghost function Keeping(holder: Option<string>, a: seq<Seat>, b: seq<Seat>): Option<string> {
    if holder.Some? && Left(a, b, holder.value) then None else holder
  }

  /** Of roles and sockets exactly those of the seats that left are gone; the controller keeps all it has. */
  ghost predicate Released(r: Room, r': Room)
    requires r.session.Some? && r'.session.Some?
  {
    var s, s' := r.session.value, r'.session.value;
    && s'.controllerToken == s.controllerToken && s'.controllerPublicId == s.controllerPublicId
    && s'.controllerSlot == s.controllerSlot && r'.controller == r.controller
    && s'.mkOwner == Keeping(s.mkOwner, s.viewers, s'.viewers)
    && s'.speaker == Keeping(s.speaker, s.viewers, s'.viewers)
    && (forall t :: t in r'.online <==> t in r.online && !Left(s.viewers, s'.viewers, t))
    && (forall t :: t in r'.online ==> r'.online[t] == r.online[t])
  }

  lemma EvictReleases(r: Room, kept: seq<Seat>, gone: set<string>)
    requires r.session.Some?
    requires forall t :: t in gone <==> Left(r.session.value.viewers, kept, t)
    ensures Released(r, Evict(r, kept, gone))
  {}

  lemma ReplacedReleases(r: Room, j: Joiner)
    requires r.session.Some? && DistinctTokens(r.session.value)
    ensures Released(r, Replaced(r, j))
    ensures TokensOf(Replaced(r, j).session.value.viewers) <= TokensOf(r.session.value.viewers)
  {
    var vs := r.session.value.viewers;
    var kept, out := Where(vs, OtherUser(j)), Where(vs, SameUser(j));
    WhereHolds(vs, OtherUser(j));
    WhereHolds(vs, SameUser(j));
    forall t ensures t in TokensOf(out) <==> Left(vs, kept, t) {
      if t in TokensOf(out) {
        var i :| 0 <= i < |out| && out[i].token == t;
        TakenBySame(vs, j, out[i]);
      }
      if Left(vs, kept, t) {
        var i :| 0 <= i < |vs| && vs[i].token == t;
        OneOrOther(vs, j, i);
      }
    }
    EvictReleases(r, kept, TokensOf(out));
    forall t | t in TokensOf(kept) ensures t in TokensOf(vs) {
      var i :| 0 <= i < |kept| && kept[i].token == t;
      assert kept[i] in vs;
    }
  }

  lemma TakenBySame(vs: seq<Seat>, j: Joiner, v: Seat)
    requires v in vs && IsSameUser(j, v)
    requires forall i, k :: 0 <= i < k < |vs| ==> vs[i].token != vs[k].token
    ensures Left(vs, Where(vs, OtherUser(j)), v.token)
  {
    var kept := Where(vs, OtherUser(j));
    WhereHolds(vs, OtherUser(j));
    forall k | 0 <= k < |kept| ensures kept[k].token != v.token {
      assert kept[k] in kept && OtherUser(j)(kept[k]);
    }
  }

  lemma OneOrOther(vs: seq<Seat>, j: Joiner, i: nat)
    requires i < |vs|
    ensures vs[i].token in TokensOf(Where(vs, OtherUser(j))) || vs[i].token in TokensOf(Where(vs, SameUser(j)))
  {
    WhereHolds(vs, OtherUser(j));
    WhereHolds(vs, SameUser(j));
    if IsSameUser(j, vs[i]) {
      assert vs[i] in Where(vs, SameUser(j)) by { assert SameUser(j)(vs[i]); }
    } else {
      assert vs[i] in Where(vs, OtherUser(j)) by { assert OtherUser(j)(vs[i]); }
    }
  }

  lemma ReclaimedReleases(r: Room, i: nat)
    requires r.session.Some? && DistinctTokens(r.session.value) && i < |r.session.value.viewers|
    ensures Released(r, Reclaimed(r, i))
    ensures TokensOf(Reclaimed(r, i).session.value.viewers) <= TokensOf(r.session.value.viewers)
  {
    var vs := r.session.value.viewers;
    var kept := Remove(vs, i);
    forall k | 0 <= k < |kept| ensures kept[k].token != vs[i].token && kept[k].token in TokensOf(vs) {
      assert kept[k] == vs[if k < i then k else k + 1];
    }
    forall t ensures t in {vs[i].token} <==> Left(vs, kept, t) {
      if Left(vs, kept, t) {
        var k :| 0 <= k < |vs| && vs[k].token == t;
        KeptByRemoval(vs, i, vs[k]);
      }
    }
    EvictReleases(r, kept, {vs[i].token});
  }

  lemma ReleasedTrans(a: Room, b: Room, c: Room)
    requires a.session.Some? && b.session.Some? && c.session.Some? && Released(a, b) && Released(b, c)
    requires TokensOf(b.session.value.viewers) <= TokensOf(a.session.value.viewers)
    requires TokensOf(c.session.value.viewers) <= TokensOf(b.session.value.viewers)
    ensures Released(a, c)
  {}

  lemma AddedReleases(a: Room, b: Room, seat: Seat)
    requires a.session.Some? && b.session.Some? && Released(a, b) && seat.token !in TokensOf(a.session.value.viewers)
    ensures Released(a, AddSeat(b, seat))
  {
    var vs, ws := b.session.value.viewers, b.session.value.viewers + [seat];
    assert ws[|vs|] == seat && forall k :: 0 <= k < |vs| ==> ws[k] == vs[k];
    assert TokensOf(ws) == TokensOf(vs) + {seat.token};
  }

  /** A join takes roles and sockets from the seats it ends and from no other. */
  lemma JoinReleases(cfg: Settings, r: Room, j: Joiner, permission: string, m: Minted, now: real)
    requires r.session.Some? && RoomOk(cfg, r) && m.token !in r.minted
    ensures Join(cfg, r, j, permission, m, now).0.session.Some?
    ensures Released(r, Join(cfg, r, j, permission, m, now).0)
  {
    var left, seat := Replaced(r, j), NewSeat(j, permission, m, now);
    ReplacedReleases(r, j);
    ReplacedOk(cfg, r, j);
    var vs := left.session.value.viewers;
    if |vs| < cfg.maxViewers {
      AddedReleases(r, left, seat);
    } else {
      var stale := Stalest(vs, left.online.Keys, now);
      if stale.Some? {
        ReclaimedReleases(left, stale.value);
        ReleasedTrans(r, left, Reclaimed(left, stale.value));
        AddedReleases(r, Reclaimed(left, stale.value), seat);
      }
    }
  }
}
