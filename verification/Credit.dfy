/** Flow control between the page and the media worker for one video sink, over two FIFO channels. */
module Credit {
  const SINK_MAX_IN_FLIGHT := 3
  const SINK_STALL_DROP_LIMIT := 30

  datatype PageMsg = Present(frame: nat) | SinkClose
  datatype WorkerMsg = SinkAck | SinkError

  /** The page's half, the two channels, and the worker's half. Frames are numbered as they are
      offered; `released` lists those closed or consumed, and `unacked` counts the ones a closed
      sink discarded without a word. */
  datatype Sink = Sink(
    dead: bool, inFlight: nat,
    toWorker: seq<PageMsg>, toPage: seq<WorkerMsg>,
    open: bool, drops: nat, pending: seq<nat>,
    offered: nat, released: seq<nat>, unacked: nat)

  const START := Sink(false, 0, [], [], true, 0, [], 0, [], 0)

  // ---- The page ----

  /** Offer a frame; `posts` is whether the message goes out when it is tried. A dead sink leaves
      the frame with its owner. */
  function Write(s: Sink, posts: bool): Sink {
    if s.dead then s
    else
      var o := s.(offered := s.offered + 1);
      if s.inFlight >= SINK_MAX_IN_FLIGHT then o.(released := s.released + [s.offered])
      else if posts then o.(toWorker := s.toWorker + [Present(s.offered)], inFlight := s.inFlight + 1)
      else Close(o.(released := s.released + [s.offered]))
  }

  function Close(s: Sink): Sink {
    if s.dead then s else s.(dead := true, toWorker := s.toWorker + [SinkClose])
  }

  /** The page hears the oldest message; a dead sink is deaf. */
  function Hear(s: Sink): Sink {
    if s.toPage == [] then s
    else
      var rest := s.(toPage := s.toPage[1..]);
      if s.dead then rest
      else
        match s.toPage[0]
        case SinkAck => if s.inFlight > 0 then rest.(inFlight := s.inFlight - 1) else rest
        case SinkError => rest.(dead := true)
  }

  // ---- The worker ----

  /** The worker takes the oldest message; `stalled` is whether the generator is backed up. */
  function Take(s: Sink, stalled: bool): Sink {
    if s.toWorker == [] then s
    else
      var rest := s.(toWorker := s.toWorker[1..]);
      match s.toWorker[0]
      case SinkClose => rest.(open := false)
      case Present(f) => PresentToSink(rest, f, stalled)
  }

  function PresentToSink(s: Sink, f: nat, stalled: bool): Sink {
    if !s.open then s.(released := s.released + [f], unacked := s.unacked + 1)
    else if !stalled then s.(drops := 0, pending := s.pending + [f])
    else
      var acked := s.(released := s.released + [f], toPage := s.toPage + [SinkAck], drops := s.drops + 1);
      if acked.drops >= SINK_STALL_DROP_LIMIT
      then acked.(open := false, toPage := acked.toPage + [SinkError])
      else acked
  }

  /** A write finishes: the frame was consumed, or is closed and the sink given up. */
  function Settle(s: Sink, i: nat, ok: bool): Sink {
    if i >= |s.pending| then s
    else
      var done := s.(pending := s.pending[..i] + s.pending[i + 1..], released := s.released + [s.pending[i]]);
      if ok then done.(toPage := s.toPage + [SinkAck])
      else done.(toPage := s.toPage + [SinkAck, SinkError], open := false)
  }

  // ---- Runs ----

  datatype Event = Offers(posts: bool) | Closes | Hears | Takes(stalled: bool) | Settles(i: nat, ok: bool)

  function Step(s: Sink, e: Event): Sink {
    match e
    case Offers(posts) => Write(s, posts)
    case Closes => Close(s)
    case Hears => Hear(s)
    case Takes(stalled) => Take(s, stalled)
    case Settles(i, ok) => Settle(s, i, ok)
  }

  function Run(events: seq<Event>): Sink {
    if events == [] then START else Step(Run(events[..|events| - 1]), events[|events| - 1])
  }

  // ---- What every run keeps ----

  function Frames(ms: seq<PageMsg>): seq<nat> {
    if ms == [] then []
    else (if ms[0].Present? then [ms[0].frame] else []) + Frames(ms[1..])
  }

  function Acks(ms: seq<WorkerMsg>): nat {
    if ms == [] then 0 else (if ms[0].SinkAck? then 1 else 0) + Acks(ms[1..])
  }

  lemma {:induction false} FramesAppend(ms: seq<PageMsg>, m: PageMsg)
    ensures Frames(ms + [m]) == Frames(ms) + if m.Present? then [m.frame] else []
  {
    var tail := if m.Present? then [m.frame] else [];
    if ms == [] {
      assert [] + [m] == [m] && [m][1..] == [];
    } else {
      var head := if ms[0].Present? then [ms[0].frame] else [];
      assert (ms + [m])[1..] == ms[1..] + [m];
      FramesAppend(ms[1..], m);
      assert head + (Frames(ms[1..]) + tail) == (head + Frames(ms[1..])) + tail;
    }
  }

  lemma {:induction false} AcksAppend(ms: seq<WorkerMsg>, more: seq<WorkerMsg>)
    ensures Acks(ms + more) == Acks(ms) + Acks(more)
  {
    if ms == [] {
      assert [] + more == more;
    } else {
      assert (ms + more)[1..] == ms[1..] + more;
      AcksAppend(ms[1..], more);
    }
  }

  /** What the page has on loan, wherever it is. */
  function OnLoan(s: Sink): nat { |Frames(s.toWorker)| + |s.pending| + Acks(s.toPage) }

  ghost predicate Credits(s: Sink) {
    !s.dead ==>
      && s.inFlight == OnLoan(s) + s.unacked && s.inFlight <= SINK_MAX_IN_FLIGHT
      && SinkClose !in s.toWorker
      && (!s.open ==> SinkError in s.toPage)
      && (s.open ==> s.unacked == 0)
  }

  function Count(fs: seq<nat>, f: nat): nat {
    if fs == [] then 0 else (if fs[0] == f then 1 else 0) + Count(fs[1..], f)
  }

  lemma {:induction false} CountAppend(a: seq<nat>, b: seq<nat>, f: nat)
    ensures Count(a + b, f) == Count(a, f) + Count(b, f)
  {
    if a == [] {
      assert [] + b == b;
    } else {
      assert (a + b)[1..] == a[1..] + b;
      CountAppend(a[1..], b, f);
    }
  }

  lemma CountAdd(a: seq<nat>, g: nat, f: nat)
    ensures Count(a + [g], f) == Count(a, f) + (if f == g then 1 else 0)
  {
    CountAppend(a, [g], f);
    assert [g][1..] == [];
  }

  /** How often a frame turns up: on its way, being written, or released. */
  function Places(s: Sink, f: nat): nat { Count(Frames(s.toWorker), f) + Count(s.pending, f) + Count(s.released, f) }

  ghost predicate Accounted(s: Sink, f: nat) { Places(s, f) == if f < s.offered then 1 else 0 }

  // ---- Each step keeps the credits ----

  lemma CloseCredits(s: Sink)
    requires Credits(s)
    ensures Credits(Close(s))
  {}

  lemma WriteCredits(s: Sink, posts: bool)
    requires Credits(s)
    ensures Credits(Write(s, posts))
  {
    FramesAppend(s.toWorker, Present(s.offered));
  }

  lemma HearCredits(s: Sink)
    requires Credits(s)
    ensures Credits(Hear(s))
  {
    if s.toPage != [] {
      assert s.toPage == [s.toPage[0]] + s.toPage[1..];
    }
  }

  /** Presenting a frame taken off the channel puts its credit in exactly one other place. */
  lemma PresentCredits(s: Sink, f: nat, stalled: bool)
    requires !s.dead && SinkClose !in s.toWorker && (!s.open ==> SinkError in s.toPage)
    ensures var q := PresentToSink(s, f, stalled);
            && OnLoan(q) + q.unacked == OnLoan(s) + s.unacked + 1
            && q.inFlight == s.inFlight && q.dead == s.dead && q.toWorker == s.toWorker
            && (!q.open ==> SinkError in q.toPage) && (q.open ==> s.open && q.unacked == s.unacked)
  {
    AcksAppend(s.toPage, [SinkAck]);
    AcksAppend(s.toPage + [SinkAck], [SinkError]);
  }

  lemma TakeCredits(s: Sink, stalled: bool)
    requires Credits(s)
    ensures Credits(Take(s, stalled))
  {
    if s.toWorker != [] && !s.dead {
      assert s.toWorker == [s.toWorker[0]] + s.toWorker[1..];
      assert s.toWorker[0] in s.toWorker;
      PresentCredits(s.(toWorker := s.toWorker[1..]), s.toWorker[0].frame, stalled);
    }
  }

  lemma SettleCredits(s: Sink, i: nat, ok: bool)
    requires Credits(s)
    ensures Credits(Settle(s, i, ok))
  {
    AcksAppend(s.toPage, [SinkAck]);
    AcksAppend(s.toPage, [SinkAck, SinkError]);
    assert Acks([SinkError]) == 0 && [SinkAck, SinkError][1..] == [SinkError];
  }

  // ---- Each step keeps every frame in one place ----

  lemma CloseAccounted(s: Sink, f: nat)
    ensures Places(Close(s), f) == Places(s, f)
  {
    FramesAppend(s.toWorker, SinkClose);
    CountAppend(Frames(s.toWorker), [], f);
  }

  lemma WriteAccounted(s: Sink, posts: bool, f: nat)
    requires Accounted(s, f)
    ensures Accounted(Write(s, posts), f)
  {
    if s.dead {
    } else if s.inFlight < SINK_MAX_IN_FLIGHT && posts {
      FramesAppend(s.toWorker, Present(s.offered));
      CountAdd(Frames(s.toWorker), s.offered, f);
    } else {
      CountAdd(s.released, s.offered, f);
      CloseAccounted(s.(offered := s.offered + 1, released := s.released + [s.offered]), f);
    }
  }

  lemma PresentAccounted(s: Sink, g: nat, stalled: bool, f: nat)
    ensures Places(PresentToSink(s, g, stalled), f) == Places(s, f) + (if f == g then 1 else 0)
    ensures PresentToSink(s, g, stalled).offered == s.offered
  {
    CountAdd(s.released, g, f);
    CountAdd(s.pending, g, f);
  }

  lemma TakeAccounted(s: Sink, stalled: bool, f: nat)
    requires Accounted(s, f)
    ensures Accounted(Take(s, stalled), f)
  {
    if s.toWorker != [] {
      var rest := s.(toWorker := s.toWorker[1..]);
      if s.toWorker[0].Present? {
        var g := s.toWorker[0].frame;
        PresentAccounted(rest, g, stalled, f);
        assert Frames(s.toWorker) == [g] + Frames(rest.toWorker);
        assert Count(Frames(s.toWorker), f) == (if g == f then 1 else 0) + Count(Frames(rest.toWorker), f);
      } else {
        assert Frames(s.toWorker) == Frames(rest.toWorker);
      }
    }
  }

  lemma SettleAccounted(s: Sink, i: nat, ok: bool, f: nat)
    requires Accounted(s, f)
    ensures Accounted(Settle(s, i, ok), f)
  {
    if i < |s.pending| {
      var a, g, b := s.pending[..i], s.pending[i], s.pending[i + 1..];
      assert s.pending == a + ([g] + b);
      CountAppend(a, [g] + b, f);
      CountAppend([g], b, f);
      CountAppend(a, b, f);
      CountAdd(s.released, g, f);
      CountAdd([], g, f);
    }
  }

  lemma StepCredits(s: Sink, e: Event)
    requires Credits(s)
    ensures Credits(Step(s, e))
  {
    match e
    case Offers(posts) => WriteCredits(s, posts);
    case Closes => CloseCredits(s);
    case Hears => HearCredits(s);
    case Takes(stalled) => TakeCredits(s, stalled);
    case Settles(i, ok) => SettleCredits(s, i, ok);
  }

  lemma StepAccounted(s: Sink, e: Event, f: nat)
    requires Accounted(s, f)
    ensures Accounted(Step(s, e), f)
  {
    match e
    case Offers(posts) => WriteAccounted(s, posts, f);
    case Closes => CloseAccounted(s, f);
    case Hears =>
    case Takes(stalled) => TakeAccounted(s, stalled, f);
    case Settles(i, ok) => SettleAccounted(s, i, ok, f);
  }

  lemma {:induction false} RunCredits(events: seq<Event>)
    ensures Credits(Run(events))
  {
    if events == [] {
    } else {
      var n := |events| - 1;
      RunCredits(events[..n]);
      StepCredits(Run(events[..n]), events[n]);
    }
  }

  /** Every frame offered is in exactly one place: on its way, being written, or released once. */
  lemma {:induction false} OnePlaceEach(events: seq<Event>, f: nat)
    ensures Places(Run(events), f) == if f < Run(events).offered then 1 else 0
  {
    if events == [] {
    } else {
      var n := |events| - 1;
      OnePlaceEach(events[..n], f);
      StepAccounted(Run(events[..n]), events[n], f);
    }
  }

  /** In every reachable state of a live sink the page's count never exceeds its limit, and it equals
      the presents, pending writes and acks on their way exactly when no frame was discarded unacked,
      which a worker that still has its sink open never does. */
  lemma CreditIsExact(events: seq<Event>)
    requires !Run(events).dead
    ensures var s := Run(events);
            && s.inFlight <= SINK_MAX_IN_FLIGHT
            && (s.inFlight == OnLoan(s) <==> s.unacked == 0)
            && (s.open ==> s.inFlight == OnLoan(s))
            && (s.unacked > 0 ==> SinkError in s.toPage)
  {
    RunCredits(events);
  }

  /** No ack ever finds the count at zero already. */
  lemma NoAckIsAbsorbed(events: seq<Event>)
    requires !Run(events).dead && Run(events).toPage != [] && Run(events).toPage[0] == SinkAck
    ensures Run(events).inFlight > 0
  {
    RunCredits(events);
  }

  /** No credit leaks: once nothing is on its way a live sink has every credit back, so the next frame is posted. */
  lemma NoCreditLeaks(events: seq<Event>)
    ensures var s := Run(events);
            !s.dead && s.toWorker == [] && s.pending == [] && s.toPage == [] ==>
              s.inFlight == 0 && Write(s, true).toWorker == [Present(s.offered)]
  {
    RunCredits(events);
    IdleMeansFree(Run(events));
  }

  lemma IdleMeansFree(s: Sink)
    requires Credits(s)
    ensures !s.dead && s.toWorker == [] && s.pending == [] && s.toPage == [] ==>
              s.inFlight == 0 && Write(s, true).toWorker == [Present(s.offered)]
  {}

  /** With nothing left on its way to the worker or being written, every frame was released once. */
  lemma AllReleased(events: seq<Event>, f: nat)
    requires Frames(Run(events).toWorker) == [] && Run(events).pending == []
    ensures Count(Run(events).released, f) == if f < Run(events).offered then 1 else 0
  {
    OnePlaceEach(events, f);
  }

  lemma RunThen(events: seq<Event>, e: Event)
    ensures Run(events + [e]) == Step(Run(events), e)
  {
    assert (events + [e])[..|events|] == events;
  }

  /** Two frames are posted, the first write fails, and the second reaches a sink already given up. */
  lemma SecondIsDiscarded() returns (s: Sink)
    ensures s == Take(Settle(Take(Write(Write(START, true), true), false), 0, false), false)
    ensures s.unacked == 1 && s.inFlight == 2 && OnLoan(s) == 1 && !s.dead
  {
    var two := Write(Write(START, true), true);
    assert two.toWorker == [Present(0), Present(1)];
    var failed := Settle(Take(two, false), 0, false);
    assert failed.toWorker == [Present(1)] && failed.toPage == [SinkAck, SinkError];
    s := Take(failed, false);
    assert [SinkAck, SinkError][1..] == [SinkError];
  }

  /** The equality does lapse, in a state the page cannot tell from any other. */
  lemma CountCanOutrunChannels()
    ensures exists events :: !Run(events).dead && Run(events).inFlight != OnLoan(Run(events))
  {
    var s := SecondIsDiscarded();
    var e1: seq<Event> := [] + [Offers(true)];
    var e2 := e1 + [Offers(true)];
    var e3 := e2 + [Takes(false)];
    var e4 := e3 + [Settles(0, false)];
    RunThen([], Offers(true));
    RunThen(e1, Offers(true));
    RunThen(e2, Takes(false));
    RunThen(e3, Settles(0, false));
    RunThen(e4, Takes(false));
    assert Run(e4 + [Takes(false)]) == s;
  }

  // ---- What becomes of the frames ----

  function Min(a: nat, b: nat): nat { if a < b then a else b }

  /** Offer `n` frames while nothing comes back. */
  function Burst(s: Sink, n: nat): Sink
    decreases n
  {
    if n == 0 then s else Burst(Write(s, true), n - 1)
  }

  function Range(from: nat, n: nat): seq<nat> { seq(n, i requires 0 <= i < n => from + i) }

  function Presents(from: nat, n: nat): seq<PageMsg> { seq(n, i requires 0 <= i < n => Present(from + i)) }

  /** A live page posts as many of the frames as it has credits, oldest first, and closes the rest at once. */
  lemma {:induction false} BurstPosts(s: Sink, n: nat)
    requires !s.dead && s.inFlight <= SINK_MAX_IN_FLIGHT
    ensures var k := Min(n, SINK_MAX_IN_FLIGHT - s.inFlight);
            Burst(s, n) == s.(offered := s.offered + n, inFlight := s.inFlight + k,
                              toWorker := s.toWorker + Presents(s.offered, k),
                              released := s.released + Range(s.offered + k, n - k))
    decreases n
  {
    if n == 0 {
      assert s.toWorker + [] == s.toWorker && s.released + [] == s.released;
    } else {
      var k := Min(n, SINK_MAX_IN_FLIGHT - s.inFlight);
      BurstPosts(Write(s, true), n - 1);
      if k == 0 {
        assert s.released + Range(s.offered, n) == (s.released + [s.offered]) + Range(s.offered + 1, n - 1);
        assert Presents(s.offered, 0) == Presents(s.offered + 1, 0);
      } else {
        assert s.toWorker + Presents(s.offered, k)
            == (s.toWorker + [Present(s.offered)]) + Presents(s.offered + 1, k - 1);
      }
    }
  }

  /** A live page gives its sink up on its own exactly when a post it has the credit for fails; it then
      closes the frame and tells the worker. A page that has given up touches nothing. */
  lemma FailedPostEnds(s: Sink, posts: bool)
    ensures Write(s, posts).dead <==> s.dead || (s.inFlight < SINK_MAX_IN_FLIGHT && !posts)
    ensures s.dead ==> Write(s, posts) == s && Close(s) == s
    ensures !s.dead && Write(s, posts).dead ==>
              && Write(s, posts).toWorker == s.toWorker + [SinkClose]
              && Write(s, posts).released == s.released + [s.offered]
  {}

  /** The worker takes everything the page sent. */
  function TakeAll(s: Sink, stalled: bool): Sink
    decreases |s.toWorker|
  {
    if s.toWorker == [] then s else TakeAll(Take(s, stalled), stalled)
  }

  /** While the generator keeps up, every frame posted is written, in the order it was posted, and none is closed. */
  lemma {:induction false} OpenSinkWrites(s: Sink)
    requires s.open && SinkClose !in s.toWorker
    ensures var t := TakeAll(s, false);
            && t.pending == s.pending + Frames(s.toWorker) && t.released == s.released
            && t.toPage == s.toPage && t.unacked == s.unacked && t.open && t.toWorker == []
            && (s.toWorker != [] ==> t.drops == 0)
    decreases |s.toWorker|
  {
    if s.toWorker != [] {
      var f := s.toWorker[0].frame;
      assert s.toWorker[0] in s.toWorker;
      OpenSinkWrites(Take(s, false));
      assert s.pending + ([f] + Frames(s.toWorker[1..])) == (s.pending + [f]) + Frames(s.toWorker[1..]);
    }
  }

  function Nacks(n: nat, error: bool): seq<WorkerMsg> {
    seq(n, i requires 0 <= i < n => SinkAck) + if error then [SinkError] else []
  }

  /** While the generator is backed up nothing is written: every frame is closed, in order, and acked until
      the thirtieth in a row, with which the worker reports the sink and closes it; what follows is closed
      without an ack. */
  lemma {:induction false} StalledSinkEnds(s: Sink)
    requires s.open && s.drops < SINK_STALL_DROP_LIMIT && SinkClose !in s.toWorker
    ensures var n, left := |Frames(s.toWorker)|, SINK_STALL_DROP_LIMIT - s.drops;
            var t := TakeAll(s, true);
            && t.released == s.released + Frames(s.toWorker) && t.pending == s.pending
            && (t.open <==> n < left)
            && t.toPage == s.toPage + Nacks(Min(n, left), n >= left)
            && t.unacked == s.unacked + (n - Min(n, left))
    decreases |s.toWorker|
  {
    if s.toWorker != [] {
      var f := s.toWorker[0].frame;
      assert s.toWorker[0] in s.toWorker;
      var rest := Frames(s.toWorker[1..]);
      var n, left := 1 + |rest|, SINK_STALL_DROP_LIMIT - s.drops;
      assert s.released + ([f] + rest) == (s.released + [f]) + rest;
      if left == 1 {
        ClosedSinkDiscards(Take(s, true), true);
        assert (s.toPage + [SinkAck]) + [SinkError] == s.toPage + Nacks(1, true);
      } else {
        StalledSinkEnds(Take(s, true));
        assert (s.toPage + [SinkAck]) + Nacks(Min(n, left) - 1, n >= left) == s.toPage + Nacks(Min(n, left), n >= left);
      }
    }
  }

  lemma FramesFirst(ms: seq<PageMsg>)
    requires ms != []
    ensures Frames(ms) == (if ms[0].Present? then [ms[0].frame] else []) + Frames(ms[1..])
    ensures ms[0] == SinkClose ==> Frames(ms) == Frames(ms[1..])
  {}

  lemma Rejoin(a: seq<nat>, b: seq<nat>, c: seq<nat>)
    ensures a + (b + c) == (a + b) + c
  {}

  /** A closed sink writes nothing and says nothing: it only closes what still arrives. */
  lemma {:induction false} ClosedSinkDiscards(s: Sink, stalled: bool)
    requires !s.open
    ensures var t := TakeAll(s, stalled);
            && t.released == s.released + Frames(s.toWorker) && t.pending == s.pending
            && t.toPage == s.toPage && !t.open && t.unacked == s.unacked + |Frames(s.toWorker)|
    decreases |s.toWorker|
  {
    if s.toWorker != [] {
      var next := Take(s, stalled);
      ClosedSinkDiscards(next, stalled);
      FramesFirst(s.toWorker);
      if s.toWorker[0].Present? {
        Rejoin(s.released, [s.toWorker[0].frame], Frames(next.toWorker));
      }
    }
  }

  /** The page hears everything the worker said. */
  function HearAll(s: Sink): Sink
    decreases |s.toPage|
  {
    if s.toPage == [] then s else HearAll(Hear(s))
  }

  /** A live page survives exactly when no error is among it, and then gets back one credit for every ack;
      what it hears moves no frame, and a page that has given up counts nothing any more. */
  lemma {:induction false} HearingPaysBack(s: Sink)
    ensures var t := HearAll(s);
            && t == s.(toPage := [], dead := t.dead, inFlight := t.inFlight)
            && (t.dead <==> s.dead || SinkError in s.toPage)
            && (!t.dead ==> t.inFlight == s.inFlight - Min(s.inFlight, Acks(s.toPage)))
            && (s.dead ==> t.inFlight == s.inFlight)
    decreases |s.toPage|
  {
    if s.toPage != [] {
      HearingPaysBack(Hear(s));
      assert s.toPage == [s.toPage[0]] + s.toPage[1..];
    }
  }

  /** A frame offered to an idle sink is written, and when its write settles the sink is as idle as before
      with the frame released, or given up by both sides with the frame released all the same. */
  lemma WholeTrip(s: Sink, ok: bool)
    requires !s.dead && s.open && s.inFlight == 0 && s.toWorker == [] && s.toPage == [] && s.pending == []
    ensures var written := TakeAll(Write(s, true), false);
            var t := HearAll(Settle(written, 0, ok));
            && written.pending == [s.offered] && written.released == s.released
            && t.released == s.released + [s.offered] && t.pending == [] && t.toPage == [] && t.toWorker == []
            && t.dead == !ok && t.open == ok && (ok ==> t.inFlight == 0)
  {
    var w := Write(s, true);
    assert w.toWorker == [Present(s.offered)] && w.toWorker[1..] == [];
    OpenSinkWrites(w);
    var written := TakeAll(w, false);
    assert TakeAll(Take(w, false), false) == Take(w, false);
    var settled := Settle(written, 0, ok);
    assert settled.toPage == if ok then [SinkAck] else [SinkAck, SinkError];
    assert Acks([SinkAck]) == 1 by { assert [SinkAck][1..] == []; }
    HearingPaysBack(settled);
  }

  /** Whichever write finishes, its frame alone leaves, with an ack; only a failure says more and ends the sink. */
  lemma SettledAlone(s: Sink, before: seq<nat>, f: nat, after: seq<nat>, ok: bool)
    requires s.pending == before + [f] + after
    ensures var t := Settle(s, |before|, ok);
            && t == s.(pending := before + after, released := s.released + [f],
                      toPage := t.toPage, open := s.open && ok)
            && t.toPage == s.toPage + Nacks(1, !ok)
  {
    assert s.pending[..|before|] == before && s.pending[|before| + 1..] == after;
    assert Nacks(1, !ok) == if ok then [SinkAck] else [SinkAck, SinkError];
  }

  // ---- The order of the frames ----

  ghost predicate Increasing(a: seq<nat>) { forall i, j :: 0 <= i < j < |a| ==> a[i] < a[j] }

  /** What is being written and what is on its way, oldest first. */
  function Ahead(s: Sink): seq<nat> { s.pending + Frames(s.toWorker) }

  /** The queue of frames ahead is in order, and older than the next one offered. */
  ghost predicate Lined(ahead: seq<nat>, next: nat) { Increasing(ahead) && forall f :: f in ahead ==> f < next }

  ghost predicate CloseIsLast(s: Sink) {
    forall i :: 0 <= i < |s.toWorker| && s.toWorker[i] == SinkClose ==> s.dead && i == |s.toWorker| - 1
  }

  ghost predicate Orderly(s: Sink) {
    Lined(Ahead(s), s.offered) && CloseIsLast(s) && (s.open ==> s.drops < SINK_STALL_DROP_LIMIT)
  }

  lemma DropKeepsOrder(a: seq<nat>, i: nat, next: nat)
    requires i < |a| && Lined(a, next)
    ensures Lined(a[..i] + a[i + 1..], next)
  {
    var b := a[..i] + a[i + 1..];
    forall f | f in b ensures f < next {
      assert f in a;
    }
  }

  lemma DropFirst(a: seq<nat>, b: seq<nat>, i: nat, next: nat)
    requires i < |a| && Lined(a + b, next)
    ensures Lined((a[..i] + a[i + 1..]) + b, next)
  {
    DropKeepsOrder(a + b, i, next);
    assert (a[..i] + a[i + 1..]) + b == (a + b)[..i] + (a + b)[i + 1..];
  }

  lemma AppendKeepsOrder(a: seq<nat>, f: nat)
    requires Lined(a, f)
    ensures Lined(a + [f], f + 1)
  {
    forall i, j | 0 <= i < j < |a + [f]| ensures (a + [f])[i] < (a + [f])[j] {
      assert a[i] in a;
    }
  }

  lemma CloseOrderly(s: Sink)
    requires Orderly(s)
    ensures Orderly(Close(s))
  {
    FramesAppend(s.toWorker, SinkClose);
    assert s.pending + (Frames(s.toWorker) + []) == Ahead(s);
  }

  lemma WriteOrderly(s: Sink, posts: bool)
    requires Orderly(s)
    ensures Orderly(Write(s, posts))
  {
    var o := s.(offered := s.offered + 1);
    assert Lined(Ahead(s), o.offered);
    if !s.dead && s.inFlight < SINK_MAX_IN_FLIGHT {
      if posts {
        FramesAppend(s.toWorker, Present(s.offered));
        assert s.pending + (Frames(s.toWorker) + [s.offered]) == Ahead(s) + [s.offered];
        AppendKeepsOrder(Ahead(s), s.offered);
      } else {
        CloseOrderly(o.(released := s.released + [s.offered]));
      }
    }
  }

  lemma TakeOrderly(s: Sink, stalled: bool)
    requires Orderly(s)
    ensures Orderly(Take(s, stalled))
  {
    if s.toWorker != [] {
      var rest := Frames(s.toWorker[1..]);
      if s.toWorker[0].Present? {
        var f := s.toWorker[0].frame;
        assert Ahead(s) == s.pending + [f] + rest;
        DropKeepsOrder(Ahead(s), |s.pending|, s.offered);
        assert s.pending + rest == Ahead(s)[..|s.pending|] + Ahead(s)[|s.pending| + 1..];
      } else {
        assert Ahead(s) == s.pending + rest;
      }
      TakeKeepsClose(s, stalled);
    }
  }

  lemma TakeKeepsClose(s: Sink, stalled: bool)
    requires s.toWorker != [] && CloseIsLast(s)
    ensures CloseIsLast(Take(s, stalled))
  {
    var t := Take(s, stalled);
    assert t.toWorker == s.toWorker[1..] && t.dead == s.dead;
    forall i | 0 <= i < |t.toWorker| && t.toWorker[i] == SinkClose ensures t.dead && i == |t.toWorker| - 1 {
      assert s.toWorker[i + 1] == SinkClose;
    }
  }

  lemma SettleOrderly(s: Sink, i: nat, ok: bool)
    requires Orderly(s)
    ensures Orderly(Settle(s, i, ok))
  {
    if i < |s.pending| { DropFirst(s.pending, Frames(s.toWorker), i, s.offered); }
  }

  lemma {:induction false} RunOrderly(events: seq<Event>)
    ensures Orderly(Run(events))
  {
    if events == [] {
    } else {
      var n := |events| - 1;
      RunOrderly(events[..n]);
      var s := Run(events[..n]);
      match events[n]
      case Offers(posts) => WriteOrderly(s, posts);
      case Closes => CloseOrderly(s);
      case Hears =>
      case Takes(stalled) => TakeOrderly(s, stalled);
      case Settles(i, ok) => SettleOrderly(s, i, ok);
    }
  }

  /** In every run the worker holds older frames than the channel, each in the order they were offered;
      the page's close is the last thing it sends; and an open sink is short of its stall limit. */
  lemma FramesStayInOrder(events: seq<Event>)
    ensures var s := Run(events);
            && Increasing(s.pending + Frames(s.toWorker))
            && (forall i :: 0 <= i < |s.toWorker| - 1 ==> s.toWorker[i].Present?)
            && (s.open ==> s.drops < SINK_STALL_DROP_LIMIT)
  {
    RunOrderly(events);
  }

  /** Neither side ever comes back: a dead page offers nothing more, and a closed sink starts no write. */
  lemma EndIsFinal(s: Sink, e: Event)
    ensures s.dead ==> Step(s, e).dead && Step(s, e).offered == s.offered
    ensures !s.open ==> !Step(s, e).open && forall f :: f in Step(s, e).pending ==> f in s.pending
  {}
}
