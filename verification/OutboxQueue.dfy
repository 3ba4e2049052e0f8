/**
 What an outbox holds, as a value: its three lanes, their history, and the
 dropping rules that `Outbox` (OutboxClass.dfy) implements in place.
 */
module OutboxQueue {
  import opened Lists
  import opened Options
  import opened OutboxFrames
  import opened OutboxLane

  /** The byte budget of the two media lanes together; eviction starts above it. */
  const MAX_MEDIA_BACKLOG_BYTES := 4 * 1024 * 1024

  /** A JSON message; its contents never matter to the outbox. */
  type Json = string

  /** `jsonIn` and `jsonOut` are every message ever queued and ever handed to the
      socket; `requested` is every sender a keyframe was asked from, in order. */
  datatype Box = Box(
    json: seq<Json>, jsonIn: seq<Json>, jsonOut: seq<Json>,
    audio: Lane, video: Lane,
    bytes: int,
    gaps: set<Sender>,
    droppedVideo: nat, droppedAudio: nat,
    requested: seq<Sender>)

  const EMPTY_BOX := Box([], [], [], EMPTY_LANE, EMPTY_LANE, 0, {}, 0, 0, [])

  predicate Empty(b: Box) { b.json == [] && b.audio.queue == [] && b.video.queue == [] }

  function Backlog(b: Box): nat { |b.audio.queue| + |b.video.queue| }

  // ---- Operations ----

  function PushJson(b: Box, payload: Json): Box {
    b.(json := b.json + [payload], jsonIn := b.jsonIn + [payload])
  }

  function PopJson(b: Box): Box
    requires b.json != []
  {
    b.(json := b.json[1..], jsonOut := b.jsonOut + [b.json[0]])
  }

  function PushMedia(b: Box, item: Queued): Box {
    if IsVideo(item.frame)
    then b.(video := Enqueue(b.video, item), bytes := b.bytes + |item.frame|)
    else b.(audio := Enqueue(b.audio, item), bytes := b.bytes + |item.frame|)
  }

  /** The `k`-th video frame leaves as dropped: its sender is in a gap from now on. */
  function DropVideo(b: Box, k: nat, why: Fate): Box
    requires k < |b.video.queue|
  {
    var frame := b.video.queue[k].item.frame;
    b.(video := Settle(b.video, k, why),
       bytes := b.bytes - |frame|,
       droppedVideo := b.droppedVideo + 1,
       gaps := b.gaps + {SenderOf(frame)},
       requested := b.requested + [SenderOf(frame)])
  }

  function DropAudio(b: Box, why: Fate): Box
    requires b.audio.queue != []
  {
    b.(audio := Settle(b.audio, 0, why),
       bytes := b.bytes - |b.audio.queue[0].item.frame|,
       droppedAudio := b.droppedAudio + 1)
  }

  function HandAudio(b: Box, now: real): Box
    requires b.audio.queue != []
  {
    b.(audio := Settle(b.audio, 0, Handed(now)), bytes := b.bytes - |b.audio.queue[0].item.frame|)
  }

  function HandVideo(b: Box, now: real): Box
    requires b.video.queue != []
  {
    var frame := b.video.queue[0].item.frame;
    b.(video := Settle(b.video, 0, Handed(now)),
       bytes := b.bytes - |frame|,
       gaps := if IsConfig(frame) then b.gaps else b.gaps - {SenderOf(frame)})
  }

  /** Index of the oldest queued video frame that is not a config, or the queue's length. */
  function FirstDroppable(q: seq<Slot>): (k: nat)
    ensures k <= |q|
    ensures k < |q| ==> !IsConfig(q[k].item.frame)
    ensures forall i :: 0 <= i < k ==> IsConfig(q[i].item.frame)
  {
    if q == [] || !IsConfig(q[0].item.frame) then 0 else 1 + FirstDroppable(q[1..])
  }

  /** Drop the oldest droppable frame, video before audio; the flag tells whether there was one. */
  function EvictOldest(b: Box): (Box, bool) {
    var k := FirstDroppable(b.video.queue);
    if k < |b.video.queue| then (DropVideo(b, k, Evicted), true)
    else if b.audio.queue != [] then (DropAudio(b, Evicted), true)
    else (b, false)
  }

  function EvictDown(b: Box): Box
    decreases Backlog(b)
  {
    if b.bytes > MAX_MEDIA_BACKLOG_BYTES && EvictOldest(b).1
    then EvictDown(EvictOldest(b).0)
    else b
  }

  function NextAudio(b: Box, now: real): (Box, Option<Frame>)
    decreases |b.audio.queue|
  {
    if b.audio.queue == [] then (b, None)
    else
      var item := b.audio.queue[0].item;
      if now - item.at > MAX_MEDIA_AGE then NextAudio(DropAudio(b, Skipped(now)), now)
      else (HandAudio(b, now), Some(item.frame))
  }

  /** Whether the frame at the front of the video lane is worth sending. */
  predicate Deliverable(b: Box, item: Queued, now: real) {
    IsConfig(item.frame)
    || (now - item.at <= MAX_MEDIA_AGE && (SenderOf(item.frame) in b.gaps ==> IsKeyframe(item.frame)))
  }

  function NextVideo(b: Box, now: real): (Box, Option<Frame>)
    decreases |b.video.queue|
  {
    if b.video.queue == [] then (b, None)
    else
      var item := b.video.queue[0].item;
      if Deliverable(b, item, now) then (HandVideo(b, now), Some(item.frame))
      else NextVideo(DropVideo(b, 0, Skipped(now)), now)
  }

  /** What goes out next: audio while there is any, video after it. */
  function NextMedia(b: Box, now: real): (Box, Option<Frame>) {
    var a := NextAudio(b, now);
    if a.1.Some? then a else NextVideo(a.0, now)
  }

  function Clear(b: Box): Box {
    b.(json := [], audio := Discard(b.audio), video := Discard(b.video), bytes := 0)
  }

  // ---- Invariants ----

  /** A dropped audio frame was stale or evicted; a handed-out one was fresh. */
  ghost predicate AudioLog(l: Lane)
    requires |l.fate| == |l.enq|
  {
    && (forall i :: 0 <= i < |l.enq| ==> !IsVideo(l.enq[i].frame))
    && (forall i :: 0 <= i < |l.enq| && l.fate[i].Handed? ==> l.fate[i].when - l.enq[i].at <= MAX_MEDIA_AGE)
    && (forall i :: 0 <= i < |l.enq| && l.fate[i].Skipped? ==> l.fate[i].when - l.enq[i].at > MAX_MEDIA_AGE)
  }

  /** Every dropped video frame is counted once and asked its sender for a keyframe once. */
  ghost predicate Counted(b: Box)
    requires Ok(b.video)
  {
    && b.droppedVideo == |b.video.dropped| == |b.requested|
    && b.droppedAudio == |b.audio.dropped|
    && Asked(b.video.enq, b.video.dropped, b.requested)
  }

  /** The `k`-th keyframe request went to the sender of the `k`-th dropped frame. */
  ghost predicate Asked(enq: seq<Queued>, dropped: seq<nat>, requested: seq<Sender>) {
    && |requested| == |dropped|
    && forall k :: 0 <= k < |dropped| ==> dropped[k] < |enq| && requested[k] == SenderOf(enq[dropped[k]].frame)
  }

  lemma AskedAppend(enq: seq<Queued>, dropped: seq<nat>, requested: seq<Sender>, id: nat)
    requires Asked(enq, dropped, requested) && id < |enq|
    ensures Asked(enq, dropped + [id], requested + [SenderOf(enq[id].frame)])
  {}

  /** What holds of an outbox from its first message on, closed or not. */
  ghost predicate History(b: Box) {
    && Ok(b.audio) && Ok(b.video)
    && AudioLog(b.audio) && VideoLog(b.video)
    && Counted(b)
    && b.bytes == Total(b.audio.queue) + Total(b.video.queue)
    && b.jsonOut <= b.jsonIn
  }

  /** Audio leaves its lane strictly oldest first, handed out or dropped. */
  ghost predicate AudioLive(l: Lane)
    requires |l.fate| == |l.enq|
  {
    NoneDiscarded(l) && forall i, j :: 0 <= i < j < |l.enq| && l.fate[i].Waiting? ==> l.fate[j].Waiting?
  }

  /** What holds until the outbox is closed: JSON is first in first out and never lost,
      no media was thrown away, and the gap set is exact. */
  ghost predicate Live(b: Box)
    requires History(b)
  {
    && b.jsonIn == b.jsonOut + b.json
    && AudioLive(b.audio)
    && VideoLive(b.video, b.gaps)
  }

  ghost predicate Inv(b: Box) { History(b) && Live(b) }

  /** The history of `b` extends the history of `a`. */
  ghost predicate Extends(a: Box, b: Box) {
    && Grows(a.audio, b.audio)
    && Grows(a.video, b.video)
    && a.jsonIn <= b.jsonIn
    && a.jsonOut <= b.jsonOut
    && a.requested <= b.requested
  }

  lemma ExtendsTrans(a: Box, b: Box, c: Box)
    requires Extends(a, b) && Extends(b, c)
    ensures Extends(a, c)
  {}

  // ---- Each operation keeps the invariant ----

  lemma PushVideoInv(b: Box, item: Queued)
    requires Inv(b) && IsVideo(item.frame)
    ensures Inv(PushMedia(b, item)) && Extends(b, PushMedia(b, item))
  {
    EnqueueOk(b.video, item);
    EnqueueLive(b.video, b.gaps, item);
    EnqueueLog(b.video, item);
    assert Counted(PushMedia(b, item));
  }

  lemma SettleFirst(l: Lane, why: Fate)
    requires Ok(l) && AudioLive(l) && l.queue != [] && (why.Handed? || why.Dropped())
    ensures |Settle(l, 0, why).fate| == |l.enq| && AudioLive(Settle(l, 0, why))
  {
    var m, id := Settle(l, 0, why), l.queue[0].id;
    forall i, j | 0 <= i < j < |m.enq| && m.fate[i].Waiting? ensures m.fate[j].Waiting? {
      assert l.fate[i].Waiting? && i != id;
      assert Holds(l.queue, i);
      var k :| 0 <= k < |l.queue| && l.queue[k].id == i;
      assert k != 0;
    }
  }

  lemma PushAudioInv(b: Box, item: Queued)
    requires Inv(b) && !IsVideo(item.frame)
    ensures Inv(PushMedia(b, item)) && Extends(b, PushMedia(b, item))
  {
    EnqueueOk(b.audio, item);
    assert AudioLog(PushMedia(b, item).audio);
  }

  lemma PushMediaInv(b: Box, item: Queued)
    requires Inv(b)
    ensures Inv(PushMedia(b, item)) && Extends(b, PushMedia(b, item))
  {
    if IsVideo(item.frame) {
      PushVideoInv(b, item);
    } else {
      PushAudioInv(b, item);
    }
  }

  lemma DropVideoHistory(b: Box, k: nat, why: Fate)
    requires History(b) && k < |b.video.queue| && why.Dropped()
    requires Ok(Settle(b.video, k, why)) && VideoLog(Settle(b.video, k, why))
    requires Total(Settle(b.video, k, why).queue) == Total(b.video.queue) - |b.video.queue[k].item.frame|
    ensures History(DropVideo(b, k, why))
  {
    assert b.video.queue[k].id < |b.video.enq|;
    AskedAppend(b.video.enq, b.video.dropped, b.requested, b.video.queue[k].id);
    assert Counted(DropVideo(b, k, why));
  }

  /** Dropping the frame at `k` is justified, and it is its sender's oldest in the queue. */
  ghost predicate MayDrop(b: Box, k: nat, why: Fate) {
    && k < |b.video.queue| && why.Dropped()
    && Justified(b.video, b.gaps, k, why)
    && (forall i :: 0 <= i < k ==> IsConfig(b.video.queue[i].item.frame))
  }

  lemma DropVideoLane(b: Box, k: nat, why: Fate)
    requires Inv(b) && MayDrop(b, k, why)
    ensures var l, c := Settle(b.video, k, why), DropVideo(b, k, why);
            && Ok(l) && VideoLog(l) && Grows(b.video, l) && VideoLive(l, c.gaps)
            && Total(l.queue) == Total(b.video.queue) - |b.video.queue[k].item.frame|
  {
    SettleVideo(b.video, b.gaps, k, why);
  }

  lemma DropVideoExtends(b: Box, k: nat, why: Fate)
    requires k < |b.video.queue| && |b.audio.fate| == |b.audio.enq| && Grows(b.video, Settle(b.video, k, why))
    ensures Extends(b, DropVideo(b, k, why))
  {}

  lemma DropVideoInv(b: Box, k: nat, why: Fate)
    requires Inv(b) && MayDrop(b, k, why)
    ensures Inv(DropVideo(b, k, why)) && Extends(b, DropVideo(b, k, why))
  {
    DropVideoLane(b, k, why);
    DropVideoHistory(b, k, why);
    DropVideoExtends(b, k, why);
  }

  lemma DropAudioInv(b: Box, why: Fate)
    requires Inv(b) && b.audio.queue != []
    requires why.Evicted? || (why.Skipped? && why.when - b.audio.queue[0].item.at > MAX_MEDIA_AGE)
    ensures Inv(DropAudio(b, why)) && Extends(b, DropAudio(b, why))
  {
    SettleOk(b.audio, 0, why);
    SettleFirst(b.audio, why);
    var r := DropAudio(b, why);
    assert AudioLog(r.audio);
  }

  lemma HandAudioInv(b: Box, now: real)
    requires Inv(b) && b.audio.queue != [] && now - b.audio.queue[0].item.at <= MAX_MEDIA_AGE
    ensures Inv(HandAudio(b, now)) && Extends(b, HandAudio(b, now))
  {
    SettleOk(b.audio, 0, Handed(now));
    SettleFirst(b.audio, Handed(now));
    var r := HandAudio(b, now);
    assert AudioLog(r.audio);
  }

  lemma HandVideoInv(b: Box, now: real)
    requires Inv(b) && b.video.queue != [] && Deliverable(b, b.video.queue[0].item, now)
    ensures Inv(HandVideo(b, now)) && Extends(b, HandVideo(b, now))
  {
    SettleVideo(b.video, b.gaps, 0, Handed(now));
    assert Counted(HandVideo(b, now));
  }

  lemma EvictOldestInv(b: Box)
    requires Inv(b)
    ensures Inv(EvictOldest(b).0) && Extends(b, EvictOldest(b).0)
  {
    var k := FirstDroppable(b.video.queue);
    if k < |b.video.queue| {
      DropVideoInv(b, k, Evicted);
    } else if b.audio.queue != [] {
      DropAudioInv(b, Evicted);
    }
  }

  lemma {:induction false} EvictDownInv(b: Box)
    requires Inv(b)
    ensures Inv(EvictDown(b)) && Extends(b, EvictDown(b))
    decreases Backlog(b)
  {
    if b.bytes <= MAX_MEDIA_BACKLOG_BYTES || !EvictOldest(b).1 {
    } else {
      EvictOldestInv(b);
      EvictDownInv(EvictOldest(b).0);
      ExtendsTrans(b, EvictOldest(b).0, EvictDown(b));
    }
  }

  ghost predicate OnlyConfigs(b: Box) {
    b.audio.queue == [] && forall i :: 0 <= i < |b.video.queue| ==> IsConfig(b.video.queue[i].item.frame)
  }

  /** After an eviction the backlog fits, or nothing droppable is left; audio is lost only
      once no droppable video remains; and the last frame lost had to go. */
  lemma {:induction false} EvictDownBound(b: Box)
    ensures var r := EvictDown(b);
            && (r.bytes <= MAX_MEDIA_BACKLOG_BYTES || OnlyConfigs(r))
            && (|r.audio.dropped| > |b.audio.dropped| ==> FirstDroppable(r.video.queue) == |r.video.queue|)
            && (b.bytes <= MAX_MEDIA_BACKLOG_BYTES ==> r == b)
            && r.video.handed == b.video.handed && r.audio.handed == b.audio.handed
    decreases Backlog(b)
  {
    if b.bytes <= MAX_MEDIA_BACKLOG_BYTES || !EvictOldest(b).1 {
    } else {
      var c := EvictOldest(b).0;
      EvictDownBound(c);
      if |c.audio.dropped| > |b.audio.dropped| {
        EvictKeepsConfigs(c);
      }
    }
  }

  /** Once only configs are left in the video lane, evicting never touches it again. */
  lemma {:induction false} EvictKeepsConfigs(b: Box)
    ensures FirstDroppable(b.video.queue) == |b.video.queue| ==> EvictDown(b).video == b.video
    decreases Backlog(b)
  {
    if b.bytes <= MAX_MEDIA_BACKLOG_BYTES || !EvictOldest(b).1 {
    } else {
      EvictKeepsConfigs(EvictOldest(b).0);
    }
  }

  function LaneOf(b: Box, video: bool): Lane { if video then b.video else b.audio }

  /** The slot's frame is the last its lane dropped, and what `b` had in audio is whole if it was video. */
  ghost predicate LastDropped(b: Box, r: Box, video: bool, s: Slot) {
    var dropped := LaneOf(r, video).dropped;
    dropped != [] && dropped[|dropped| - 1] == s.id && (video ==> r.audio.dropped == b.audio.dropped)
  }

  /** Everything still queued was queued before. */
  ghost predicate SlotsFrom(b: Box, c: Box) {
    && (forall t :: t in c.audio.queue ==> t in b.audio.queue)
    && (forall t :: t in c.video.queue ==> t in b.video.queue)
  }

  lemma DropVideoTakes(b: Box, k: nat)
    requires Inv(b) && k < |b.video.queue|
    ensures var c, s := DropVideo(b, k, Evicted), b.video.queue[k];
            && TakenOut(b, c, true, s) && LastDropped(b, c, true, s) && SlotsFrom(b, c)
            && c.bytes + |s.item.frame| == b.bytes
  {
    RemoveSlot(b.video, k);
  }

  lemma DropAudioTakes(b: Box)
    requires Inv(b) && b.audio.queue != []
    ensures var c, s := DropAudio(b, Evicted), b.audio.queue[0];
            && TakenOut(b, c, false, s) && LastDropped(b, c, false, s) && SlotsFrom(b, c)
            && c.bytes + |s.item.frame| == b.bytes
  {
    RemoveSlot(b.audio, 0);
  }

  /** Evicting one frame takes its slot out of its lane and records it; the other slots stay. */
  lemma EvictOldestTakes(b: Box) returns (video: bool, s: Slot)
    requires Inv(b) && EvictOldest(b).1
    ensures var c := EvictOldest(b).0;
            && TakenOut(b, c, video, s) && LastDropped(b, c, video, s) && SlotsFrom(b, c)
            && c.bytes + |s.item.frame| == b.bytes
  {
    var k := FirstDroppable(b.video.queue);
    if k < |b.video.queue| {
      video, s := true, b.video.queue[k];
      DropVideoTakes(b, k);
    } else {
      video, s := false, b.audio.queue[0];
      DropAudioTakes(b);
    }
  }

  /** Audio goes only once no droppable video is left, and then the video lane stays as it is. */
  lemma AudioGoesLast(b: Box)
    requires EvictOldest(b).1
    ensures var c := EvictOldest(b).0; c.audio.dropped != b.audio.dropped ==> EvictDown(c).video == c.video
  {
    EvictKeepsConfigs(EvictOldest(b).0);
  }

  lemma TakenLater(b: Box, c: Box, r: Box, video: bool, s: Slot)
    requires SlotsFrom(b, c) && TakenOut(c, r, video, s) && LastDropped(c, r, video, s)
    requires c.audio.dropped != b.audio.dropped ==> r.video == c.video
    ensures TakenOut(b, r, video, s) && LastDropped(b, r, video, s)
  {}

  lemma RemoveSlot(l: Lane, k: nat)
    requires Ok(l) && k < |l.queue|
    ensures l.queue[k] in l.queue && l.queue[k] !in Remove(l.queue, k)
    ensures forall t :: t in Remove(l.queue, k) ==> t in l.queue
    ensures l.queue[k].id < |l.fate|
  {
    var r := Remove(l.queue, k);
    forall n | 0 <= n < |r| ensures r[n] != l.queue[k] && r[n] in l.queue {
      assert r[n] == l.queue[Origin(n, k)];
    }
  }

  /** The slot was queued in `b` and is not in `r`, where its frame counts as evicted. */
  ghost predicate TakenOut(b: Box, r: Box, video: bool, s: Slot) {
    var l := LaneOf(r, video);
    s in LaneOf(b, video).queue && s !in l.queue && s.id < |l.fate| && l.fate[s.id] == Evicted
  }

  /** Evicting stops as soon as it can: put the frame evicted last back and the backlog is over. Audio
      goes only after the last video, so the lane dropped from last is the one named. */
  lemma {:induction false} EvictDownNeeded(b: Box) returns (video: bool, last: Slot)
    requires Inv(b) && EvictDown(b) != b
    ensures TakenOut(b, EvictDown(b), video, last) && LastDropped(b, EvictDown(b), video, last)
    ensures EvictDown(b).bytes + |last.item.frame| > MAX_MEDIA_BACKLOG_BYTES
    decreases Backlog(b)
  {
    var c := EvictOldest(b).0;
    video, last := EvictOldestTakes(b);
    if EvictDown(c) == c {
    } else {
      EvictOldestInv(b);
      video, last := EvictDownNeeded(c);
      AudioGoesLast(b);
      TakenLater(b, c, EvictDown(b), video, last);
    }
  }

  lemma {:induction false} NextAudioInv(b: Box, now: real)
    requires Inv(b)
    ensures var r := NextAudio(b, now).0; Inv(r) && Extends(b, r) && r.video == b.video
    decreases |b.audio.queue|
  {
    if b.audio.queue == [] {
    } else {
      if now - b.audio.queue[0].item.at > MAX_MEDIA_AGE {
        DropAudioInv(b, Skipped(now));
        NextAudioInv(DropAudio(b, Skipped(now)), now);
        ExtendsTrans(b, DropAudio(b, Skipped(now)), NextAudio(b, now).0);
      } else {
        HandAudioInv(b, now);
      }
    }
  }

  lemma {:induction false} NextVideoInv(b: Box, now: real)
    requires Inv(b)
    ensures var r := NextVideo(b, now).0; Inv(r) && Extends(b, r) && r.audio == b.audio
    decreases |b.video.queue|
  {
    if b.video.queue == [] {
    } else {
      if Deliverable(b, b.video.queue[0].item, now) {
        HandVideoInv(b, now);
      } else {
        DropVideoInv(b, 0, Skipped(now));
        NextVideoInv(DropVideo(b, 0, Skipped(now)), now);
        ExtendsTrans(b, DropVideo(b, 0, Skipped(now)), NextVideo(b, now).0);
      }
    }
  }

  lemma NextMediaInv(b: Box, now: real)
    requires Inv(b)
    ensures Inv(NextMedia(b, now).0) && Extends(b, NextMedia(b, now).0)
  {
    NextAudioInv(b, now);
    var a := NextAudio(b, now).0;
    NextVideoInv(a, now);
    ExtendsTrans(b, a, NextVideo(a, now).0);
  }

  /** `frame` is what lane `l` handed out last, and the only thing it handed out since `before`. */
  ghost predicate HandedOne(before: Lane, l: Lane, frame: Frame, now: real) {
    && |l.fate| == |l.enq|
    && |l.handed| == |before.handed| + 1
    && l.handed[..|before.handed|] == before.handed
    && var i := l.handed[|before.handed|];
       i < |l.enq| && l.enq[i].frame == frame && l.fate[i] == Handed(now)
  }

  /** `NextMedia` hands out exactly the frame it returns, audio before any video,
      and returns nothing only when both lanes are empty. */
  lemma NextMediaHands(b: Box, now: real)
    requires Inv(b)
    ensures var r := NextMedia(b, now);
            match r.1
            case None => r.0.audio.queue == [] && r.0.video.queue == []
                         && r.0.audio.handed == b.audio.handed && r.0.video.handed == b.video.handed
            case Some(f) =>
              || (HandedOne(b.audio, r.0.audio, f, now) && r.0.video == b.video)
              || (HandedOne(b.video, r.0.video, f, now) && r.0.audio.handed == b.audio.handed && r.0.audio.queue == [])
  {
    NextAudioHands(b, now);
    NextAudioInv(b, now);
    var a := NextAudio(b, now);
    if a.1.None? {
      NextVideoHands(a.0, now);
      NextVideoInv(a.0, now);
    } else {
      assert HandedOne(b.audio, a.0.audio, a.1.value, now);
    }
  }

  lemma {:induction false} NextAudioHands(b: Box, now: real)
    requires Inv(b)
    ensures var r := NextAudio(b, now);
            match r.1
            case None => r.0.audio.queue == [] && r.0.audio.handed == b.audio.handed
            case Some(f) => HandedOne(b.audio, r.0.audio, f, now)
    decreases |b.audio.queue|
  {
    if b.audio.queue == [] {
    } else {
      if now - b.audio.queue[0].item.at > MAX_MEDIA_AGE {
        DropAudioInv(b, Skipped(now));
        NextAudioHands(DropAudio(b, Skipped(now)), now);
      } else {
        HandAudioInv(b, now);
      }
    }
  }

  lemma {:induction false} NextVideoHands(b: Box, now: real)
    requires Inv(b)
    ensures var r := NextVideo(b, now);
            match r.1
            case None => r.0.video.queue == [] && r.0.video.handed == b.video.handed
            case Some(f) => HandedOne(b.video, r.0.video, f, now)
    decreases |b.video.queue|
  {
    if b.video.queue == [] {
    } else {
      if Deliverable(b, b.video.queue[0].item, now) {
        HandVideoInv(b, now);
      } else {
        DropVideoInv(b, 0, Skipped(now));
        NextVideoHands(DropVideo(b, 0, Skipped(now)), now);
      }
    }
  }

  lemma ClearHistory(b: Box)
    requires History(b)
    ensures History(Clear(b)) && Extends(b, Clear(b)) && Empty(Clear(b))
  {
    DiscardOk(b.audio);
    DiscardOk(b.video);
    DiscardLog(b.video);
    var r := Clear(b);
    assert AudioLog(r.audio);
    assert Counted(r);
  }

  /** Until a close every frame that entered a lane was handed out, dropped or is still queued. */
  lemma Accounted(b: Box)
    requires Inv(b)
    ensures |b.audio.enq| == |b.audio.handed| + |b.audio.dropped| + |b.audio.queue|
    ensures |b.video.enq| == |b.video.handed| + |b.video.dropped| + |b.video.queue|
    ensures forall i :: 0 <= i < |b.video.enq| && IsConfig(b.video.enq[i].frame) ==>
              b.video.fate[i].Handed? || b.video.fate[i].Waiting?
    ensures Empty(b) ==> b.jsonOut == b.jsonIn
    ensures Empty(b) ==> forall i :: 0 <= i < |b.video.enq| ==> b.video.fate[i].Handed? || b.video.fate[i].Dropped()
    ensures Empty(b) ==> forall i :: 0 <= i < |b.audio.enq| ==> b.audio.fate[i].Handed? || b.audio.fate[i].Dropped()
  {
    if Empty(b) {
      assert forall i :: !Holds(b.video.queue, i);
      assert forall i :: !Holds(b.audio.queue, i);
    }
  }
}
