/**
 The outbox and its drain task as a step machine. The drain runs without
 interruption between its `await`s, so a step is one whole stretch of it; every
 other step is one call into the outbox from another task.
 */
module OutboxDrain {
  import opened Options
  import opened OutboxFrames
  import opened OutboxLane
  import opened OutboxQueue

  /** The JSON backlog at which the next message shuts the outbox instead. */
  const MAX_JSON_BACKLOG := 512

  datatype Item = Text(payload: Json) | Media(frame: Frame)

  /** Where the drain task stands: not started, scheduled but not run yet, waiting for
      `_wake`, waiting for a send, or gone. */
  datatype Pc = NoTask | Created | Parked | Sending(item: Item) | Gone

  datatype Machine = Machine(box: Box, wake: bool, idle: bool, closed: bool, abandoned: bool, pc: Pc)

  const INIT := Machine(EMPTY_BOX, false, true, false, false, NoTask)

  /** How an awaited send ended. */
  datatype Outcome = Sent | Failed | TimedOut

  /** The monotonic clock, as one reading for each number of media frames still queued:
      a stretch of the drain reads it once per frame it considers handing out. */
  type Clock = nat -> real

  // ---- Steps ----

  function Kick(m: Machine): Machine {
    m.(idle := false, wake := true, pc := if m.pc.NoTask? then Created else m.pc)
  }

  function Shut(m: Machine): Machine {
    m.(box := Clear(m.box), idle := true, closed := true, abandoned := true, pc := Gone)
  }

  function AClose(m: Machine): Machine {
    m.(box := Clear(m.box), idle := true, closed := true, pc := Gone)
  }

  function SendJson(m: Machine, payload: Json): Machine {
    if m.closed then m
    else if |m.box.json| >= MAX_JSON_BACKLOG then Shut(m)
    else Kick(m.(box := PushJson(m.box, payload)))
  }

  function SendMedia(m: Machine, now: real, frame: Frame): Machine {
    if m.closed then m
    else Kick(m.(box := EvictDown(PushMedia(m.box, Queued(now, frame)))))
  }

  /** Reaching `_wake.wait()`: it returns at once when the event is set. */
  function Wait(m: Machine, connected: bool, clock: Clock): Machine
    decreases if m.wake then 1 else 0, |m.box.json| + Backlog(m.box), 0
  {
    if m.wake then Pump(m.(wake := false), connected, clock) else m.(pc := Parked)
  }

  /** The next item to send: JSON first, then what `NextMedia` hands out. */
  function Take(b: Box, clock: Clock): (Box, Option<Item>) {
    if b.json != [] then (PopJson(b), Some(Text(b.json[0])))
    else
      var (box, frame) := NextMedia(b, clock(Backlog(b)));
      (box, if frame.Some? then Some(Media(frame.value)) else None)
  }

  /** The inner loop: take items until one goes out on a send, or none is left. */
  function Pump(m: Machine, connected: bool, clock: Clock): Machine
    decreases if m.wake then 1 else 0, |m.box.json| + Backlog(m.box), 1
  {
    TakeShrinks(m.box, clock);
    var (box, item) := Take(m.box, clock);
    var r := m.(box := box);
    if item.None? then Wait(r.(idle := true), connected, clock)
    else if connected then r.(pc := Sending(item.value))
    else Pump(r, connected, clock)
  }

  /** Run the drain from where it stands to its next await. A drain that is not runnable stays put. */
  function Resume(m: Machine, outcome: Outcome, connected: bool, clock: Clock): Machine {
    match m.pc
    case Created => Wait(m, connected, clock)
    case Parked => Wait(m, connected, clock)
    case Sending(_) => if outcome.TimedOut? then Shut(m) else Pump(m, connected, clock)
    case _ => m
  }

  datatype Event =
    | QueueJson(payload: Json)
    | QueueMedia(now: real, frame: Frame)
    | RunDrain(outcome: Outcome, connected: bool, clock: Clock)
    | Finish

  function Step(m: Machine, e: Event): Machine {
    match e
    case QueueJson(p) => SendJson(m, p)
    case QueueMedia(now, f) => SendMedia(m, now, f)
    case RunDrain(o, c, k) => Resume(m, o, c, k)
    case Finish => AClose(m)
  }

  lemma {:induction false} NextAudioShrinks(b: Box, now: real)
    ensures var r := NextAudio(b, now);
            && r.0.json == b.json && r.0.video.queue == b.video.queue
            && |r.0.audio.queue| <= |b.audio.queue| && (r.1.Some? ==> |r.0.audio.queue| < |b.audio.queue|)
    decreases |b.audio.queue|
  {
    if b.audio.queue == [] || now - b.audio.queue[0].item.at <= MAX_MEDIA_AGE {
    } else {
      NextAudioShrinks(DropAudio(b, Skipped(now)), now);
    }
  }

  lemma {:induction false} NextVideoShrinks(b: Box, now: real)
    ensures var r := NextVideo(b, now);
            && r.0.json == b.json && r.0.audio.queue == b.audio.queue
            && |r.0.video.queue| <= |b.video.queue| && (r.1.Some? ==> |r.0.video.queue| < |b.video.queue|)
    decreases |b.video.queue|
  {
    if b.video.queue == [] || Deliverable(b, b.video.queue[0].item, now) {
    } else {
      NextVideoShrinks(DropVideo(b, 0, Skipped(now)), now);
    }
  }

  lemma NextMediaShrinks(b: Box, now: real)
    ensures var r := NextMedia(b, now);
            && r.0.json == b.json
            && Backlog(r.0) <= Backlog(b) && (r.1.Some? ==> Backlog(r.0) < Backlog(b))
  {
    NextAudioShrinks(b, now);
    NextVideoShrinks(NextAudio(b, now).0, now);
  }

  lemma TakeShrinks(b: Box, clock: Clock)
    ensures var r := Take(b, clock);
            && |r.0.json| + Backlog(r.0) <= |b.json| + Backlog(b)
            && (r.1.Some? ==> |r.0.json| + Backlog(r.0) < |b.json| + Backlog(b))
  {
    if b.json == [] { NextMediaShrinks(b, clock(Backlog(b))); }
  }

  // ---- Invariant ----

  /** While the outbox is open: a set idle event means nothing is queued and nothing is being
      sent; a parked drain with work to do has been woken; a drain exists whenever there is work. */
  ghost predicate Signals(m: Machine) {
    && (m.idle ==> Empty(m.box) && !m.pc.Sending?)
    && (m.pc.Parked? ==> m.wake || m.idle)
    && (m.pc.NoTask? ==> m.idle)
    && (m.pc.Created? ==> m.wake)
    && !m.pc.Gone?
  }

  ghost predicate Good(m: Machine) {
    && History(m.box)
    && if m.closed then Empty(m.box) && m.idle && m.pc.Gone?
       else Live(m.box) && Signals(m)
  }

  /** What the drain relies on while it runs: the events may be out of step, the box may not. */
  ghost predicate Running(m: Machine) { !m.closed && Inv(m.box) && !m.pc.Gone? }

  lemma PopJsonInv(b: Box)
    requires Inv(b) && b.json != []
    ensures Inv(PopJson(b)) && Extends(b, PopJson(b))
  {
    assert b.json == [b.json[0]] + b.json[1..];
  }

  /** Taking an item keeps the invariant, and finds none only when nothing is queued. */
  lemma TakeInv(b: Box, clock: Clock)
    requires Inv(b)
    ensures var r := Take(b, clock); Inv(r.0) && Extends(b, r.0) && (r.1.None? ==> Empty(r.0))
  {
    if b.json != [] {
      PopJsonInv(b);
    } else {
      var now := clock(Backlog(b));
      NextMediaInv(b, now);
      NextMediaHands(b, now);
      NextMediaShrinks(b, now);
    }
  }

  lemma {:induction false} PumpGood(m: Machine, connected: bool, clock: Clock)
    requires Running(m) && !m.idle
    ensures var r := Pump(m, connected, clock); Good(r) && !r.closed && Extends(m.box, r.box)
    decreases if m.wake then 1 else 0, |m.box.json| + Backlog(m.box), 1
  {
    TakeShrinks(m.box, clock);
    TakeInv(m.box, clock);
    var (box, item) := Take(m.box, clock);
    var r := m.(box := box);
    if item.None? {
      WaitGood(r.(idle := true), connected, clock);
      ExtendsTrans(m.box, box, Wait(r.(idle := true), connected, clock).box);
    } else if !connected {
      PumpGood(r, connected, clock);
      ExtendsTrans(m.box, box, Pump(r, connected, clock).box);
    }
  }

  lemma {:induction false} WaitGood(m: Machine, connected: bool, clock: Clock)
    requires Running(m)
    requires m.idle ==> Empty(m.box)
    requires !m.wake ==> m.idle
    ensures var r := Wait(m, connected, clock); Good(r) && !r.closed && Extends(m.box, r.box)
    decreases if m.wake then 1 else 0, |m.box.json| + Backlog(m.box), 0
  {
    if m.wake {
      if m.idle {
        PumpEmpty(m.(wake := false), connected, clock);
      } else {
        PumpGood(m.(wake := false), connected, clock);
      }
    }
  }

  /** A drain that finds nothing queued goes back to waiting. */
  lemma PumpEmpty(m: Machine, connected: bool, clock: Clock)
    requires Running(m) && Empty(m.box) && !m.wake
    ensures Pump(m, connected, clock) == m.(idle := true, pc := Parked)
  {
    assert NextMedia(m.box, clock(Backlog(m.box))) == (m.box, None);
  }

  lemma ShutGood(m: Machine)
    requires Good(m)
    ensures Good(Shut(m)) && Good(AClose(m))
    ensures Extends(m.box, Shut(m).box) && Extends(m.box, AClose(m).box)
  {
    ClearHistory(m.box);
  }

  lemma SendMediaGood(m: Machine, now: real, frame: Frame)
    requires Good(m) && !m.closed
    ensures Good(SendMedia(m, now, frame)) && Extends(m.box, SendMedia(m, now, frame).box)
  {
    var b := PushMedia(m.box, Queued(now, frame));
    PushMediaInv(m.box, Queued(now, frame));
    EvictDownInv(b);
    ExtendsTrans(m.box, b, EvictDown(b));
  }

  lemma SendJsonGood(m: Machine, payload: Json)
    requires Good(m)
    ensures Good(SendJson(m, payload)) && Extends(m.box, SendJson(m, payload).box)
  {
    if !m.closed && |m.box.json| >= MAX_JSON_BACKLOG { ShutGood(m); }
  }

  lemma ResumeGood(m: Machine, outcome: Outcome, connected: bool, clock: Clock)
    requires Good(m)
    ensures Good(Resume(m, outcome, connected, clock)) && Extends(m.box, Resume(m, outcome, connected, clock).box)
  {
    match m.pc
    case Created => WaitGood(m, connected, clock);
    case Parked => WaitGood(m, connected, clock);
    case Sending(_) => if outcome.TimedOut? { ShutGood(m); } else { PumpGood(m, connected, clock); }
    case _ =>
  }

  /** Once closed, a machine stays closed and hands out nothing more. */
  ghost predicate StaysClosed(a: Machine, b: Machine) {
    a.closed ==> b.closed && b.box.video.handed == a.box.video.handed && b.box.audio.handed == a.box.audio.handed
  }

  lemma ClosedStays(m: Machine, e: Event)
    requires Good(m)
    ensures StaysClosed(m, Step(m, e))
  {}

  /** Every step keeps the invariant and the history; a closed outbox hands nothing out any more. */
  lemma StepGood(m: Machine, e: Event)
    requires Good(m)
    ensures Good(Step(m, e)) && Extends(m.box, Step(m, e).box)
    ensures StaysClosed(m, Step(m, e))
  {
    ClosedStays(m, e);
    match e
    case QueueJson(p) => SendJsonGood(m, p);
    case QueueMedia(now, f) => if m.closed { ExtendsSelf(m); } else { SendMediaGood(m, now, f); }
    case Finish => ShutGood(m);
    case RunDrain(o, c, k) => ResumeGood(m, o, c, k);
  }

  lemma ExtendsSelf(m: Machine)
    requires Good(m)
    ensures Extends(m.box, m.box) && StaysClosed(m, m)
  {}

  // ---- What each step does to the queue ----

  /** A call queues work for a drain that runs already, or starts one; it never stops or moves a drain. */
  ghost predicate Kicked(m: Machine, r: Machine) {
    !r.closed && r.wake && !r.idle && r.pc == if m.pc.NoTask? then Created else m.pc
  }

  /** A JSON message goes to the back of its queue, unless the backlog is full, which costs the
      recipient its connection; a closed outbox takes nothing. */
  lemma SendJsonQueues(m: Machine, payload: Json)
    ensures var r := SendJson(m, payload);
            if m.closed then r == m
            else if |m.box.json| < MAX_JSON_BACKLOG then
              && Kicked(m, r)
              && r.box == m.box.(json := m.box.json + [payload], jsonIn := m.box.jsonIn + [payload])
            else
              r.closed && r.abandoned && r.idle && r.pc.Gone? && Empty(r.box) && r.box.jsonIn == m.box.jsonIn
  {}

  lemma {:induction false} EvictDownEnqueues(b: Box)
    ensures var r := EvictDown(b);
            && r.audio.enq == b.audio.enq && r.video.enq == b.video.enq
            && r.json == b.json && r.jsonIn == b.jsonIn && r.jsonOut == b.jsonOut
    decreases Backlog(b)
  {
    if b.bytes <= MAX_MEDIA_BACKLOG_BYTES || !EvictOldest(b).1 {
    } else {
      EvictDownEnqueues(EvictOldest(b).0);
    }
  }

  /** A frame enters its own lane, whatever is evicted for it; one that fits costs nothing else its place. */
  lemma SendMediaQueues(m: Machine, now: real, frame: Frame)
    requires Good(m)
    ensures var r, item := SendMedia(m, now, frame), Queued(now, frame);
            if m.closed then r == m
            else
              && Kicked(m, r) && r.box.json == m.box.json && r.box.jsonIn == m.box.jsonIn
              && r.box.video.enq == m.box.video.enq + (if IsVideo(frame) then [item] else [])
              && r.box.audio.enq == m.box.audio.enq + (if IsVideo(frame) then [] else [item])
              && (m.box.bytes + |frame| <= MAX_MEDIA_BACKLOG_BYTES ==>
                    r.box.video.dropped == m.box.video.dropped && r.box.audio.dropped == m.box.audio.dropped)
  {
    if !m.closed {
      var b := PushMedia(m.box, Queued(now, frame));
      EvictDownEnqueues(b);
      EvictDownBound(b);
    }
  }

  /** Shutting and closing throw the backlog away and nothing else: what was handed over or dropped
      stays so, nothing is handed over any more, and only a shut tells the room to let the socket go. */
  lemma ClosingDiscards(m: Machine)
    ensures forall r :: r == Shut(m) || r == AClose(m) ==>
              && r.closed && r.idle && r.pc.Gone? && Empty(r.box) && r.box.bytes == 0
              && r.box.video.handed == m.box.video.handed && r.box.video.dropped == m.box.video.dropped
              && r.box.audio.handed == m.box.audio.handed && r.box.audio.dropped == m.box.audio.dropped
              && r.box.jsonIn == m.box.jsonIn && r.box.jsonOut == m.box.jsonOut
    ensures Shut(m).abandoned && AClose(m).abandoned == m.abandoned
  {}

  // ---- What the drain sends ----

  /** The oldest JSON message has left the queue for the socket, and nothing else has moved. */
  ghost predicate SendsJson(m: Machine, r: Machine) {
    && m.box.json != [] && r.pc == Sending(Text(m.box.json[0]))
    && r.box == m.box.(json := m.box.json[1..], jsonOut := m.box.jsonOut + [m.box.json[0]])
  }

  /** The frame being sent is the one just handed out: of the audio lane, or of the video lane with
      no audio left. */
  ghost predicate SendsMedia(m: Machine, r: Machine, now: real) {
    && r.pc.Sending? && r.pc.item.Media?
    && r.box.json == [] == m.box.json && r.box.jsonOut == m.box.jsonOut
    && (|| (HandedOne(m.box.audio, r.box.audio, r.pc.item.frame, now) && r.box.video == m.box.video)
        || (HandedOne(m.box.video, r.box.video, r.pc.item.frame, now)
            && r.box.audio.handed == m.box.audio.handed && r.box.audio.queue == []))
  }

  /** Nothing is left to send, and nothing went out. */
  ghost predicate RunsDry(m: Machine, r: Machine) {
    && r.pc.Parked? && r.idle && !r.wake && Empty(r.box)
    && r.box.video.handed == m.box.video.handed && r.box.audio.handed == m.box.audio.handed
    && r.box.jsonOut == m.box.jsonOut
  }

  /** On a connected socket one item is taken: either it is sent, or there was none. */
  lemma PumpStops(m: Machine, clock: Clock)
    requires Running(m)
    ensures var (box, item) := Take(m.box, clock);
            && (item.Some? ==> Pump(m, true, clock) == m.(box := box, pc := Sending(item.value)))
            && (item.None? ==>
                  Empty(box) && Pump(m, true, clock) == m.(box := box, idle := true, wake := false, pc := Parked))
  {
    var (box, item) := Take(m.box, clock);
    TakeShrinks(m.box, clock);
    TakeInv(m.box, clock);
    if item.None? && m.wake {
      PumpEmpty(m.(box := box, idle := true, wake := false), true, clock);
    }
  }

  lemma PumpSends(m: Machine, clock: Clock)
    requires Running(m)
    ensures var r := Pump(m, true, clock);
            && (m.box.json != [] ==> SendsJson(m, r))
            && (m.box.json == [] ==> SendsMedia(m, r, clock(Backlog(m.box))) || RunsDry(m, r))
  {
    PumpStops(m, clock);
    if m.box.json == [] {
      NextMediaHands(m.box, clock(Backlog(m.box)));
      NextMediaShrinks(m.box, clock(Backlog(m.box)));
      NextMediaJson(m.box, clock(Backlog(m.box)));
    }
  }

  lemma {:induction false} NextAudioJson(b: Box, now: real)
    ensures NextAudio(b, now).0.jsonOut == b.jsonOut
    decreases |b.audio.queue|
  {
    if b.audio.queue == [] || now - b.audio.queue[0].item.at <= MAX_MEDIA_AGE {
    } else {
      NextAudioJson(DropAudio(b, Skipped(now)), now);
    }
  }

  lemma {:induction false} NextVideoJson(b: Box, now: real)
    ensures NextVideo(b, now).0.jsonOut == b.jsonOut
    decreases |b.video.queue|
  {
    if b.video.queue == [] || Deliverable(b, b.video.queue[0].item, now) {
    } else {
      NextVideoJson(DropVideo(b, 0, Skipped(now)), now);
    }
  }

  lemma NextMediaJson(b: Box, now: real)
    ensures NextMedia(b, now).0.jsonOut == b.jsonOut
  {
    NextAudioJson(b, now);
    NextVideoJson(NextAudio(b, now).0, now);
  }

  /** The drain is there to be resumed, and no send of its ran into the stall limit. */
  predicate Resumes(m: Machine, outcome: Outcome) {
    (m.pc.Created? || m.pc.Parked? || m.pc.Sending?) && !(m.pc.Sending? && outcome.TimedOut?)
  }

  /** On a connected socket the drain stops at the first thing worth sending: the oldest JSON message,
      or else the next media frame, and it waits only once there is neither. */
  lemma ResumeSends(m: Machine, outcome: Outcome, clock: Clock)
    requires Good(m) && !m.closed && Resumes(m, outcome)
    ensures var r := Resume(m, outcome, true, clock);
            && !r.closed
            && (m.box.json != [] ==> SendsJson(m, r))
            && (m.box.json == [] ==> SendsMedia(m, r, clock(Backlog(m.box))) || RunsDry(m, r))
  {
    ResumeGood(m, outcome, true, clock);
    if m.pc.Sending? {
      PumpSends(m, clock);
    } else if m.wake {
      PumpSends(m.(wake := false), clock);
    }
  }

  lemma {:induction false} PumpDiscards(m: Machine, clock: Clock)
    requires Running(m)
    ensures var r := Pump(m, false, clock); r.pc.Parked? && r.idle && !r.wake && Empty(r.box)
    decreases |m.box.json| + Backlog(m.box)
  {
    var (box, item) := Take(m.box, clock);
    TakeShrinks(m.box, clock);
    TakeInv(m.box, clock);
    if item.Some? {
      PumpDiscards(m.(box := box), clock);
    } else if m.wake {
      PumpEmpty(m.(box := box, idle := true, wake := false), false, clock);
    }
  }

  /** On a socket that is gone nothing is sent: the drain takes everything and waits. */
  lemma ResumeDiscards(m: Machine, outcome: Outcome, clock: Clock)
    requires Good(m) && !m.closed && Resumes(m, outcome)
    ensures var r := Resume(m, outcome, false, clock); !r.closed && r.pc.Parked? && r.idle && Empty(r.box)
  {
    ResumeGood(m, outcome, false, clock);
    if m.pc.Sending? {
      PumpDiscards(m, clock);
    } else if m.wake {
      PumpDiscards(m.(wake := false), clock);
    }
  }

  /** A send that stalls shuts the outbox; a drain not started, or gone, stays as it is. */
  lemma ResumeOtherwise(m: Machine, outcome: Outcome, connected: bool, clock: Clock)
    requires !Resumes(m, outcome)
    ensures var r := Resume(m, outcome, connected, clock);
            if m.pc.Sending? then r.closed && r.abandoned && r.pc.Gone? && Empty(r.box) else r == m
  {}

  // ---- Runs ----

  /** A run of the outbox from its construction: `ms[i + 1]` is `ms[i]` after event `es[i]`. */
  ghost predicate IsRun(ms: seq<Machine>, es: seq<Event>) {
    && |ms| == |es| + 1
    && ms[0] == INIT
    && forall i :: 0 <= i < |es| ==> ms[i + 1] == Step(ms[i], es[i])
  }

  /** A lane nothing has entered yet. */
  predicate Unused(l: Lane) {
    l.queue == [] && l.enq == [] && l.fate == [] && l.handed == [] && l.dropped == [] && l.discarded == 0
  }

  lemma UnusedOk(l: Lane)
    requires Unused(l)
    ensures Ok(l) && NoneDiscarded(l)
  {}

  lemma UnusedLog(l: Lane)
    requires Unused(l)
    ensures VideoLog(l) && AudioLog(l)
  {}

  lemma UnusedLive(l: Lane, gaps: set<Sender>)
    requires Unused(l) && gaps == {}
    ensures VideoLive(l, gaps)
  {
    assert forall i, s :: !LastSettled(l, s, i);
  }

  predicate UnusedBox(b: Box) {
    && Unused(b.audio) && Unused(b.video) && b.gaps == {}
    && b.json == [] && b.jsonIn == [] && b.jsonOut == [] && b.requested == []
    && b.bytes == b.droppedVideo == b.droppedAudio == 0
  }

  lemma UnusedHistory(b: Box)
    requires UnusedBox(b)
    ensures History(b)
  {
    UnusedOk(b.audio);
    UnusedOk(b.video);
    UnusedLog(b.audio);
    UnusedLog(b.video);
  }

  lemma UnusedInv(b: Box)
    requires UnusedBox(b)
    ensures Inv(b)
  {
    UnusedHistory(b);
    UnusedOk(b.audio);
    UnusedLive(b.video, b.gaps);
  }

  lemma UnusedGood(m: Machine)
    requires UnusedBox(m.box) && m.idle && !m.closed && m.pc == NoTask
    ensures Good(m)
  {
    UnusedInv(m.box);
  }

  lemma InitGood()
    ensures Good(INIT)
  {
    assert UnusedBox(INIT.box);
    UnusedGood(INIT);
  }

  lemma {:induction false} RunGood(ms: seq<Machine>, es: seq<Event>, i: nat)
    requires IsRun(ms, es) && i < |ms|
    ensures Good(ms[i])
  {
    if i == 0 {
      InitGood();
    } else {
      RunGood(ms, es, i - 1);
      StepGood(ms[i - 1], es[i - 1]);
    }
  }

  lemma NextExtends(ms: seq<Machine>, es: seq<Event>, i: nat)
    requires IsRun(ms, es) && i < |es|
    ensures Extends(ms[i].box, ms[i + 1].box) && StaysClosed(ms[i], ms[i + 1])
  {
    RunGood(ms, es, i);
    StepGood(ms[i], es[i]);
  }

  lemma {:induction false} RunExtends(ms: seq<Machine>, es: seq<Event>, i: nat, j: nat)
    requires IsRun(ms, es) && i <= j < |ms|
    ensures Extends(ms[i].box, ms[j].box) && StaysClosed(ms[i], ms[j])
    decreases j - i
  {
    if i == j {
      RunGood(ms, es, i);
      ExtendsSelf(ms[i]);
    } else {
      RunExtends(ms, es, i, j - 1);
      NextExtends(ms, es, j - 1);
      ExtendsTrans(ms[i].box, ms[j - 1].box, ms[j].box);
    }
  }

  /** Decodability over every run, whatever ages out or is evicted: a video frame the drain
      took to send is the end of a run of its sender's frames, none of them lost, that starts
      at a keyframe or at the first frame the sender ever queued for this recipient. */
  lemma RunDecodable(ms: seq<Machine>, es: seq<Event>, n: nat, k: nat) returns (root: nat)
    requires IsRun(ms, es) && n < |ms|
    requires k < |ms[n].box.video.handed|
    ensures var l := ms[n].box.video;
            && |l.fate| == |l.enq| && l.handed[k] < |l.enq|
            && (IsConfig(l.enq[l.handed[k]].frame) ||
                var i := l.handed[k];
                var s := SenderOf(l.enq[i].frame);
                && root <= i && FrameOf(l.enq, root, s)
                && (IsKeyframe(l.enq[root].frame) || forall j :: 0 <= j < root ==> !FrameOf(l.enq, j, s))
                && Unbroken(l, s, root, i))
  {
    RunGood(ms, es, n);
    var l := ms[n].box.video;
    root := 0;
    if !IsConfig(l.enq[l.handed[k]].frame) {
      root := DecodableRun(l, l.handed[k]);
    }
  }

  ghost predicate LastHanded(l: Lane, f: Frame) {
    && l.handed != []
    && var i := l.handed[|l.handed| - 1]; i < |l.enq| && l.enq[i].frame == f
  }

  /** The item on the socket is the last one its queue gave out. */
  ghost predicate OnSocket(m: Machine) {
    match m.pc
    case Sending(Text(p)) => m.box.jsonOut != [] && m.box.jsonOut[|m.box.jsonOut| - 1] == p
    case Sending(Media(f)) => LastHanded(m.box.audio, f) || LastHanded(m.box.video, f)
    case _ => true
  }

  lemma StillLast(a: Lane, b: Lane, f: Frame)
    requires LastHanded(a, f) && b.handed == a.handed && a.enq <= b.enq
    ensures LastHanded(b, f)
  {}

  lemma SendingIsOnSocket(m: Machine, r: Machine, now: real)
    requires SendsJson(m, r) || SendsMedia(m, r, now) || !r.pc.Sending?
    ensures OnSocket(r)
  {}

  lemma MediaOnSocket(m: Machine, now: real, f: Frame)
    requires OnSocket(m)
    ensures OnSocket(SendMedia(m, now, f))
  {
    var r, b := SendMedia(m, now, f), PushMedia(m.box, Queued(now, f));
    EvictDownEnqueues(b);
    EvictDownBound(b);
    if !m.closed && m.pc.Sending? && m.pc.item.Media? {
      if LastHanded(m.box.audio, m.pc.item.frame) {
        StillLast(m.box.audio, r.box.audio, m.pc.item.frame);
      } else {
        StillLast(m.box.video, r.box.video, m.pc.item.frame);
      }
    }
  }

  lemma JsonOnSocket(m: Machine, payload: Json)
    requires OnSocket(m)
    ensures OnSocket(SendJson(m, payload))
  {}

  lemma ResumeOnSocket(m: Machine, outcome: Outcome, connected: bool, clock: Clock)
    requires Good(m) && OnSocket(m)
    ensures OnSocket(Resume(m, outcome, connected, clock))
  {
    var r := Resume(m, outcome, connected, clock);
    if m.closed || !Resumes(m, outcome) {
      ResumeOtherwise(m, outcome, connected, clock);
    } else if connected {
      ResumeSends(m, outcome, clock);
      SendingIsOnSocket(m, r, clock(Backlog(m.box)));
    } else {
      ResumeDiscards(m, outcome, clock);
      SendingIsOnSocket(m, r, 0.0);
    }
  }

  lemma StepOnSocket(m: Machine, e: Event)
    requires Good(m) && OnSocket(m)
    ensures OnSocket(Step(m, e))
  {
    match e
    case QueueJson(p) => JsonOnSocket(m, p);
    case QueueMedia(now, f) => MediaOnSocket(m, now, f);
    case Finish =>
    case RunDrain(o, connected, clock) => ResumeOnSocket(m, o, connected, clock);
  }

  lemma {:induction false} RunOnSocket(ms: seq<Machine>, es: seq<Event>, n: nat)
    requires IsRun(ms, es) && n < |ms|
    ensures OnSocket(ms[n])
  {
    if n == 0 {
    } else {
      RunOnSocket(ms, es, n - 1);
      RunGood(ms, es, n - 1);
      StepOnSocket(ms[n - 1], es[n - 1]);
    }
  }

  /** Over every run, whatever the socket is busy with is the newest entry of what was taken to be
      sent; JSON is taken in the order it was queued, and audio leaves its lane oldest first. */
  lemma RunSendsInOrder(ms: seq<Machine>, es: seq<Event>, n: nat)
    requires IsRun(ms, es) && n < |ms|
    ensures OnSocket(ms[n]) && ms[n].box.jsonOut <= ms[n].box.jsonIn
    ensures var l := ms[n].box.audio;
            && |l.fate| == |l.enq|
            && (!ms[n].closed ==> forall i, j :: 0 <= i < j < |l.enq| && l.fate[i].Waiting? ==> l.fate[j].Waiting?)
  {
    RunGood(ms, es, n);
    RunOnSocket(ms, es, n);
  }

  /** No lost wake-up: while the outbox is open and anything is queued, the drain is about to
      run, is sending, or has been woken. */
  lemma RunWakes(ms: seq<Machine>, es: seq<Event>, n: nat)
    requires IsRun(ms, es) && n < |ms| && !ms[n].closed && !Empty(ms[n].box)
    ensures !ms[n].idle
    ensures ms[n].pc.Sending? || ((ms[n].pc.Parked? || ms[n].pc.Created?) && ms[n].wake)
  {
    RunGood(ms, es, n);
  }

  /** An honest flush: it starts at `from`, sees the idle event at `seen`, and answers at `to`.
      If the outbox is still open then, everything queued by `from` has been taken by the drain
      (sent, or let go because the socket was gone), or dropped by the rules. */
  lemma FlushHonest(ms: seq<Machine>, es: seq<Event>, from: nat, seen: nat, to: nat)
    requires IsRun(ms, es) && from <= seen <= to < |ms|
    requires ms[seen].idle && !ms[to].closed
    ensures !ms[seen].pc.Sending?
    ensures ms[from].box.jsonIn <= ms[seen].box.jsonOut
    ensures forall i :: 0 <= i < |ms[from].box.video.enq| ==>
              i < |ms[to].box.video.fate| && (ms[to].box.video.fate[i].Handed? || ms[to].box.video.fate[i].Dropped())
    ensures forall i :: 0 <= i < |ms[from].box.audio.enq| ==>
              i < |ms[to].box.audio.fate| && (ms[to].box.audio.fate[i].Handed? || ms[to].box.audio.fate[i].Dropped())
  {
    RunGood(ms, es, seen);
    RunExtends(ms, es, from, seen);
    RunExtends(ms, es, seen, to);
    Accounted(ms[seen].box);
  }

  /** After `send_media` the backlog fits, or only video configs are left to send. */
  lemma SendMediaBounded(m: Machine, now: real, frame: Frame)
    requires Good(m) && !m.closed
    ensures var b := SendMedia(m, now, frame).box;
            && b.bytes == Total(b.audio.queue) + Total(b.video.queue)
            && (b.bytes <= MAX_MEDIA_BACKLOG_BYTES || OnlyConfigs(b))
            && (|b.audio.dropped| > |m.box.audio.dropped| ==>
                  forall i :: 0 <= i < |b.video.queue| ==> IsConfig(b.video.queue[i].item.frame))
  {
    var item := Queued(now, frame);
    PushMediaInv(m.box, item);
    EvictDownInv(PushMedia(m.box, item));
    EvictDownBound(PushMedia(m.box, item));
  }
}
