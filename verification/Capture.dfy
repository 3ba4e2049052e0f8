/** The mirror image for capture: the worker lends frames to the page, the page acks them. */
module Capture {
  import Credit

  const MAX_IN_FLIGHT := Credit.SINK_MAX_IN_FLIGHT

  datatype SourceMsg = Frame(frame: nat) | SourceEnd
  datatype ReplyMsg = SourceAck | SourceStop

  /** The worker's half, the two channels, and the page's half. `handed` lists the frames queued for
      the encoder, `closed` those closed anywhere, and `unacked` counts frames a stopped page closed. */
  datatype Source = Source(
    reading: bool, inFlight: nat,
    toPage: seq<SourceMsg>, toWorker: seq<ReplyMsg>,
    stopped: bool,
    taken: nat, handed: seq<nat>, closed: seq<nat>, unacked: nat)

  const START := Source(true, 0, [], [], false, 0, [], [], 0)

  /** The worker's reader yields a frame. */
  function Read(s: Source): Source {
    var r := s.(taken := s.taken + 1);
    if !s.reading || s.inFlight >= MAX_IN_FLIGHT then r.(closed := s.closed + [s.taken])
    else r.(inFlight := s.inFlight + 1, toPage := s.toPage + [Frame(s.taken)])
  }

  /** The worker's reader is done, or fails. */
  function End(s: Source): Source {
    if !s.reading then s else s.(reading := false, toPage := s.toPage + [SourceEnd])
  }

  /** The worker takes the oldest reply. */
  function TakeReply(s: Source): Source {
    if s.toWorker == [] then s
    else
      var rest := s.(toWorker := s.toWorker[1..]);
      match s.toWorker[0]
      case SourceAck => if s.reading && s.inFlight > 0 then rest.(inFlight := s.inFlight - 1) else rest
      case SourceStop => rest.(reading := false)
  }

  /** The page takes the oldest message; `busy` is whether the encoder is behind. */
  function TakeFrame(s: Source, busy: bool): Source {
    if s.toPage == [] then s
    else
      var rest := s.(toPage := s.toPage[1..]);
      match s.toPage[0]
      case SourceEnd => rest.(stopped := true)
      case Frame(f) =>
        if s.stopped then rest.(closed := s.closed + [f], unacked := s.unacked + 1)
        else if busy then rest.(closed := s.closed + [f], toWorker := s.toWorker + [SourceAck])
        else rest.(handed := s.handed + [f], toWorker := s.toWorker + [SourceAck])
  }

  function Stop(s: Source): Source {
    if s.stopped then s else s.(stopped := true, toWorker := s.toWorker + [SourceStop])
  }

  datatype Event = Reads | Ends | TakesReply | TakesFrame(busy: bool) | Stops

  function Step(s: Source, e: Event): Source {
    match e
    case Reads => Read(s)
    case Ends => End(s)
    case TakesReply => TakeReply(s)
    case TakesFrame(busy) => TakeFrame(s, busy)
    case Stops => Stop(s)
  }

  function Run(events: seq<Event>): Source {
    if events == [] then START else Step(Run(events[..|events| - 1]), events[|events| - 1])
  }

  // ---- What every run keeps ----

  function Frames(ms: seq<SourceMsg>): seq<nat> {
    if ms == [] then [] else (if ms[0].Frame? then [ms[0].frame] else []) + Frames(ms[1..])
  }

  function Acks(ms: seq<ReplyMsg>): nat {
    if ms == [] then 0 else (if ms[0].SourceAck? then 1 else 0) + Acks(ms[1..])
  }

  lemma {:induction false} FramesAppend(ms: seq<SourceMsg>, m: SourceMsg)
    ensures Frames(ms + [m]) == Frames(ms) + if m.Frame? then [m.frame] else []
  {
    var one := if m.Frame? then [m.frame] else [];
    if ms == [] {
      assert [] + [m] == [m];
    } else {
      var first := if ms[0].Frame? then [ms[0].frame] else [];
      assert (ms + [m])[1..] == ms[1..] + [m];
      FramesAppend(ms[1..], m);
      assert first + (Frames(ms[1..]) + one) == (first + Frames(ms[1..])) + one;
    }
  }

  lemma {:induction false} AcksAppend(ms: seq<ReplyMsg>, m: ReplyMsg)
    ensures Acks(ms + [m]) == Acks(ms) + if m.SourceAck? then 1 else 0
  {
    if ms == [] {
      assert [] + [m] == [m];
    } else {
      assert (ms + [m])[1..] == ms[1..] + [m];
      AcksAppend(ms[1..], m);
    }
  }

  function OnLoan(s: Source): nat { |Frames(s.toPage)| + Acks(s.toWorker) }

  ghost predicate Credits(s: Source) {
    s.reading ==>
      && s.inFlight == OnLoan(s) + s.unacked && s.inFlight <= MAX_IN_FLIGHT
      && SourceEnd !in s.toPage
      && (s.stopped ==> SourceStop in s.toWorker)
      && (!s.stopped ==> s.unacked == 0)
  }

  lemma TakeFrameCredits(s: Source, busy: bool)
    requires Credits(s)
    ensures Credits(TakeFrame(s, busy))
  {
    AcksAppend(s.toWorker, SourceAck);
    if s.toPage != [] {
      assert s.toPage == [s.toPage[0]] + s.toPage[1..];
      assert s.toPage[0] in s.toPage;
    }
  }

  lemma TakeReplyCredits(s: Source)
    requires Credits(s)
    ensures Credits(TakeReply(s))
  {
    if s.toWorker != [] {
      assert s.toWorker == [s.toWorker[0]] + s.toWorker[1..];
    }
  }

  lemma StepCredits(s: Source, e: Event)
    requires Credits(s)
    ensures Credits(Step(s, e))
  {
    match e
    case Reads => FramesAppend(s.toPage, Frame(s.taken));
    case Ends =>
    case TakesReply => TakeReplyCredits(s);
    case TakesFrame(busy) => TakeFrameCredits(s, busy);
    case Stops => AcksAppend(s.toWorker, SourceStop);
  }

  lemma {:induction false} RunCredits(events: seq<Event>)
    ensures Credits(Run(events))
  {
    if events == [] {
    } else {
      var n := |events| - 1;
      RunCredits(events[..n]);
      StepCredits(Run(events[..n]), events[n]);
    }
  }

  /** While the worker reads, its count never exceeds its limit and equals the frames and acks on their
      way plus those a stopping page closed unacked; until the page stops there are none of these. */
  lemma CreditIsExact(events: seq<Event>)
    ensures var s := Run(events);
            s.reading ==>
              && s.inFlight <= MAX_IN_FLIGHT
              && s.inFlight == OnLoan(s) + s.unacked
              && (!s.stopped ==> s.inFlight == OnLoan(s))
              && (s.toWorker != [] && s.toWorker[0] == SourceAck ==> s.inFlight > 0)
              && (s.toPage == [] && s.toWorker == [] ==> s.inFlight == 0)
  {
    RunCredits(events);
    Consequences(Run(events));
  }

  lemma Consequences(s: Source)
    requires Credits(s)
    ensures s.reading && s.toWorker != [] && s.toWorker[0] == SourceAck ==> s.inFlight > 0
    ensures s.reading && s.toPage == [] && s.toWorker == [] ==> s.inFlight == 0
  {}

  /** How often a frame turns up: on its way to the page, with the encoder, or closed. */
  function Places(s: Source, f: nat): nat {
    Credit.Count(Frames(s.toPage), f) + Credit.Count(s.handed, f) + Credit.Count(s.closed, f)
  }

  /** The frame is in one place if it has been read, and in none before. */
  predicate InOnePlace(s: Source, f: nat) { Places(s, f) == if f < s.taken then 1 else 0 }

  lemma ReadAccounted(s: Source, f: nat)
    requires InOnePlace(s, f)
    ensures InOnePlace(Read(s), f)
  {
    FramesAppend(s.toPage, Frame(s.taken));
    Credit.CountAdd(Frames(s.toPage), s.taken, f);
    Credit.CountAdd(s.closed, s.taken, f);
  }

  lemma TakeFrameAccounted(s: Source, busy: bool, f: nat)
    requires InOnePlace(s, f) && s.toPage != [] && s.toPage[0].Frame?
    ensures InOnePlace(TakeFrame(s, busy), f)
  {
    var g, rest := s.toPage[0].frame, Frames(s.toPage[1..]);
    assert Frames(s.toPage) == [g] + rest;
    assert Credit.Count([g] + rest, f) == (if f == g then 1 else 0) + Credit.Count(rest, f) by {
      assert ([g] + rest)[1..] == rest;
    }
    Credit.CountAdd(s.handed, g, f);
    Credit.CountAdd(s.closed, g, f);
  }

  lemma TakeEndAccounted(s: Source, busy: bool, f: nat)
    requires InOnePlace(s, f) && (s.toPage == [] || s.toPage[0].SourceEnd?)
    ensures InOnePlace(TakeFrame(s, busy), f)
  {
    if s.toPage != [] {
      assert [] + Frames(s.toPage[1..]) == Frames(s.toPage[1..]);
    }
  }

  lemma EndAccounted(s: Source, f: nat)
    requires InOnePlace(s, f)
    ensures InOnePlace(End(s), f)
  {
    FramesAppend(s.toPage, SourceEnd);
    assert Frames(s.toPage) + [] == Frames(s.toPage);
  }

  lemma StaysPut(s: Source, s': Source, f: nat)
    requires InOnePlace(s, f)
    requires s'.toPage == s.toPage && s'.handed == s.handed && s'.closed == s.closed && s'.taken == s.taken
    ensures InOnePlace(s', f)
  {}

  lemma StepAccounted(s: Source, e: Event, f: nat)
    requires InOnePlace(s, f)
    ensures InOnePlace(Step(s, e), f)
  {
    match e
    case Reads => ReadAccounted(s, f);
    case Ends => EndAccounted(s, f);
    case TakesFrame(busy) =>
      if s.toPage != [] && s.toPage[0].Frame? {
        TakeFrameAccounted(s, busy, f);
      } else {
        TakeEndAccounted(s, busy, f);
      }
    case TakesReply => StaysPut(s, TakeReply(s), f);
    case Stops => StaysPut(s, Stop(s), f);
  }

  /** Every frame read is in exactly one place: on its way, with the encoder, or closed once. */
  lemma {:induction false} OnePlaceEach(events: seq<Event>, f: nat)
    ensures InOnePlace(Run(events), f)
  {
    if events == [] {
    } else {
      var n := |events| - 1;
      OnePlaceEach(events[..n], f);
      StepAccounted(Run(events[..n]), events[n], f);
    }
  }

  // ---- What becomes of the frames ----

  /** The reader yields `n` frames while the page says nothing. */
  function Burst(s: Source, n: nat): Source
    decreases n
  {
    if n == 0 then s else Burst(Read(s), n - 1)
  }

  function Lent(from: nat, n: nat): seq<SourceMsg> { seq(n, i requires 0 <= i < n => Frame(from + i)) }

  /** A reading worker lends as many of the frames as it has credits, oldest first, and closes the rest. */
  lemma {:induction false} BurstLends(s: Source, n: nat)
    requires s.reading && s.inFlight <= MAX_IN_FLIGHT
    ensures var k := Credit.Min(n, MAX_IN_FLIGHT - s.inFlight);
            Burst(s, n) == s.(taken := s.taken + n, inFlight := s.inFlight + k,
                              toPage := s.toPage + Lent(s.taken, k),
                              closed := s.closed + Credit.Range(s.taken + k, n - k))
    decreases n
  {
    if n == 0 {
      assert s.toPage + [] == s.toPage && s.closed + [] == s.closed;
    } else {
      var k := Credit.Min(n, MAX_IN_FLIGHT - s.inFlight);
      BurstLends(Read(s), n - 1);
      if k == 0 {
        assert s.closed + Credit.Range(s.taken, n) == (s.closed + [s.taken]) + Credit.Range(s.taken + 1, n - 1);
        assert Lent(s.taken, 0) == Lent(s.taken + 1, 0);
      } else {
        assert s.toPage + Lent(s.taken, k) == (s.toPage + [Frame(s.taken)]) + Lent(s.taken + 1, k - 1);
      }
    }
  }

  /** The page takes everything the worker sent. */
  function TakeAll(s: Source, busy: bool): Source
    decreases |s.toPage|
  {
    if s.toPage == [] then s else TakeAll(TakeFrame(s, busy), busy)
  }

  function SourceAcks(n: nat): seq<ReplyMsg> { seq(n, i requires 0 <= i < n => SourceAck) }

  /** A page that still captures hands every frame to the encoder, in order, or closes them all while the
      encoder is behind; either way it acks each. */
  lemma {:induction false} OpenPageHands(s: Source, busy: bool)
    requires !s.stopped && SourceEnd !in s.toPage
    ensures var t, fs := TakeAll(s, busy), Frames(s.toPage);
            t == s.(toPage := [], handed := if busy then s.handed else s.handed + fs,
                    closed := if busy then s.closed + fs else s.closed,
                    toWorker := s.toWorker + SourceAcks(|fs|))
    decreases |s.toPage|
  {
    if s.toPage == [] {
      assert s.handed + [] == s.handed && s.closed + [] == s.closed && s.toWorker + SourceAcks(0) == s.toWorker;
    } else {
      assert s.toPage[0] in s.toPage;
      var f, rest := s.toPage[0].frame, Frames(s.toPage[1..]);
      OpenPageHands(TakeFrame(s, busy), busy);
      Credit.Rejoin(s.handed, [f], rest);
      Credit.Rejoin(s.closed, [f], rest);
      assert s.toWorker + SourceAcks(1 + |rest|) == (s.toWorker + [SourceAck]) + SourceAcks(|rest|);
    }
  }

  /** A page that has stopped closes what still arrives and acks none of it. */
  lemma {:induction false} StoppedPageCloses(s: Source, busy: bool)
    requires s.stopped
    ensures var t, fs := TakeAll(s, busy), Frames(s.toPage);
            t == s.(toPage := [], closed := s.closed + fs, unacked := s.unacked + |fs|)
    decreases |s.toPage|
  {
    if s.toPage == [] {
      assert s.closed + [] == s.closed;
    } else {
      var next := TakeFrame(s, busy);
      StoppedPageCloses(next, busy);
      if s.toPage[0].Frame? {
        Credit.Rejoin(s.closed, [s.toPage[0].frame], Frames(next.toPage));
      } else {
        assert [] + Frames(next.toPage) == Frames(s.toPage);
      }
    }
  }

  /** The worker takes every reply. */
  function HearAll(s: Source): Source
    decreases |s.toWorker|
  {
    if s.toWorker == [] then s else HearAll(TakeReply(s))
  }

  /** A reading worker goes on exactly when no stop is among the replies, and then has back one credit for
      every ack; no reply moves a frame. */
  lemma {:induction false} RepliesPayBack(s: Source)
    ensures var t := HearAll(s);
            && t == s.(toWorker := [], reading := t.reading, inFlight := t.inFlight)
            && (t.reading <==> s.reading && SourceStop !in s.toWorker)
            && (t.reading ==> t.inFlight == s.inFlight - Credit.Min(s.inFlight, Acks(s.toWorker)))
    decreases |s.toWorker|
  {
    if s.toWorker != [] {
      RepliesPayBack(TakeReply(s));
      assert s.toWorker == [s.toWorker[0]] + s.toWorker[1..];
    }
  }

  // ---- The order of the frames ----

  /** What the encoder was given and what is on its way to it, oldest first. */
  function Stream(s: Source): seq<nat> { s.handed + Frames(s.toPage) }

  /** The stream is in order, each side says once that it is done, and last. */
  ghost predicate Orderly(s: Source) {
    && Credit.Lined(Stream(s), s.taken)
    && (forall i :: 0 <= i < |s.toPage| && s.toPage[i] == SourceEnd ==> !s.reading && i == |s.toPage| - 1)
    && (forall i :: 0 <= i < |s.toWorker| && s.toWorker[i] == SourceStop ==> s.stopped && i == |s.toWorker| - 1)
  }

  lemma ReadOrderly(s: Source)
    requires Orderly(s)
    ensures Orderly(Read(s))
  {
    var r := Read(s);
    if s.reading && s.inFlight < MAX_IN_FLIGHT {
      FramesAppend(s.toPage, Frame(s.taken));
      assert s.handed + (Frames(s.toPage) + [s.taken]) == Stream(s) + [s.taken];
      Credit.AppendKeepsOrder(Stream(s), s.taken);
    }
  }

  lemma EndOrderly(s: Source)
    requires Orderly(s)
    ensures Orderly(End(s)) && Orderly(Stop(s))
  {
    FramesAppend(s.toPage, SourceEnd);
    assert Frames(s.toPage) + [] == Frames(s.toPage);
  }

  lemma TakeFrameOrderly(s: Source, busy: bool)
    requires Orderly(s)
    ensures Orderly(TakeFrame(s, busy))
  {
    if s.toPage != [] {
      var rest := Frames(s.toPage[1..]);
      if s.toPage[0].Frame? {
        assert Stream(s) == s.handed + [s.toPage[0].frame] + rest;
        Credit.DropKeepsOrder(Stream(s), |s.handed|, s.taken);
        assert s.handed + rest == Stream(s)[..|s.handed|] + Stream(s)[|s.handed| + 1..];
      } else {
        assert Stream(s) == s.handed + rest;
      }
      TakeFrameEnds(s, busy);
    }
  }

  lemma TakeFrameEnds(s: Source, busy: bool)
    requires Orderly(s) && s.toPage != []
    ensures var t := TakeFrame(s, busy);
            && (forall i :: 0 <= i < |t.toPage| && t.toPage[i] == SourceEnd ==> !t.reading && i == |t.toPage| - 1)
            && (forall i :: 0 <= i < |t.toWorker| && t.toWorker[i] == SourceStop ==>
                  t.stopped && i == |t.toWorker| - 1)
  {
    var t := TakeFrame(s, busy);
    assert t.toPage == s.toPage[1..] && t.reading == s.reading;
    forall i | 0 <= i < |t.toPage| && t.toPage[i] == SourceEnd ensures !t.reading && i == |t.toPage| - 1 {
      assert s.toPage[i + 1] == SourceEnd;
    }
  }

  lemma TakeReplyOrderly(s: Source)
    requires Orderly(s)
    ensures Orderly(TakeReply(s))
  {
    if s.toWorker != [] {
      var t := TakeReply(s);
      assert t.toPage == s.toPage && t.toWorker == s.toWorker[1..] && t.stopped == s.stopped;
      assert t.reading ==> s.reading;
      forall i | 0 <= i < |t.toWorker| && t.toWorker[i] == SourceStop ensures t.stopped && i == |t.toWorker| - 1 {
        assert s.toWorker[i + 1] == SourceStop;
      }
    }
  }

  lemma {:induction false} RunOrderly(events: seq<Event>)
    ensures Orderly(Run(events))
  {
    if events == [] {
    } else {
      var n := |events| - 1;
      RunOrderly(events[..n]);
      var s := Run(events[..n]);
      match events[n]
      case Reads => ReadOrderly(s);
      case Ends => EndOrderly(s);
      case TakesReply => TakeReplyOrderly(s);
      case TakesFrame(busy) => TakeFrameOrderly(s, busy);
      case Stops => EndOrderly(s);
    }
  }

  /** In every run the encoder is given frames in the order they were captured, and what is on its way is
      newer still; each side's goodbye is the last thing it sends. */
  lemma EncodedInOrder(events: seq<Event>)
    ensures var s := Run(events);
            && Credit.Increasing(s.handed + Frames(s.toPage))
            && (forall i :: 0 <= i < |s.toPage| - 1 ==> s.toPage[i].Frame?)
            && (forall i :: 0 <= i < |s.toWorker| - 1 ==> s.toWorker[i].SourceAck?)
  {
    RunOrderly(events);
  }

  /** Once told it is over, either side is done for good. */
  lemma EndIsFinal(s: Source, e: Event)
    ensures !s.reading ==> !Step(s, e).reading && |Step(s, e).toPage| <= |s.toPage|
    ensures s.stopped ==> Step(s, e).stopped && Step(s, e).handed == s.handed
    ensures e == Stops && !s.stopped ==> SourceStop in Step(s, e).toWorker && Step(s, e).stopped
    ensures e == Ends && s.reading ==> SourceEnd in Step(s, e).toPage && !Step(s, e).reading
  {
    assert SourceStop in s.toWorker + [SourceStop] && SourceEnd in s.toPage + [SourceEnd];
  }
}
