/** What an outbox reads of a media frame: its sender, its kind, whether it is a keyframe. */
module OutboxFrames {
  newtype byte = x: int | 0 <= x < 256

  /** Where the header says what kind of frame it is: the eight bytes before it name the sender. */
  const TYPE_AT := 8

  const VIDEO_FRAME: byte := 1
  const VIDEO_CONFIG: byte := 3
  const KEYFRAME_FLAG: byte := 1

  /** A stamped frame always carries its header, so it is longer than `TYPE_AT`. */
  type Frame = f: seq<byte> | |f| > TYPE_AT witness [0, 0, 0, 0, 0, 0, 0, 0, 0]

  type Sender = seq<byte>

  function SenderOf(f: Frame): Sender { f[..TYPE_AT] }

  predicate IsVideo(f: Frame) { f[TYPE_AT] == VIDEO_FRAME || f[TYPE_AT] == VIDEO_CONFIG }

  predicate IsConfig(f: Frame) { f[TYPE_AT] == VIDEO_CONFIG }

  predicate IsKeyframe(f: Frame) { |f| > TYPE_AT + 1 && f[TYPE_AT + 1] == KEYFRAME_FLAG }

  /** What an outbox reads of a frame stamped with its sender: the kind behind the sender's eight bytes is
      1 for video, 2 for audio and 3 for a video config, and a 1 behind it marks a keyframe. */
  lemma StampedFrame(sender: Sender, kind: byte, body: seq<byte>)
    requires |sender| == 8
    ensures var f: Frame := sender + [kind] + body;
            && SenderOf(f) == sender
            && (IsVideo(f) <==> kind in {1, 3}) && (IsConfig(f) <==> kind == 3)
            && (IsKeyframe(f) <==> body != [] && body[0] == 1)
  {
    var f: Frame := sender + [kind] + body;
    assert f[..8] == sender && f[8] == kind;
    assert body != [] ==> f[9] == body[0];
  }

  /** A queued media frame and the monotonic time it was queued at. */
  datatype Queued = Queued(at: real, frame: Frame)
}

/**
 One media lane of an outbox together with the history of every frame that ever
 entered it for this recipient, and what became of each.
 */
module OutboxLane {
  import opened Lists
  import opened OutboxFrames

  /** The age limit: a frame that has waited longer is stale. */
  const MAX_MEDIA_AGE := 0.5

  /** What became of a frame, with the clock reading the decision was made on. */
  datatype Fate = Waiting | Handed(when: real) | Skipped(when: real) | Evicted | Discarded {
    predicate Dropped() { Skipped? || Evicted? }
  }

  /** A queue entry: the frame, and its position in the lane's enqueue order. */
  datatype Slot = Slot(id: nat, item: Queued)

  /** `enq` is every frame in enqueue order, `fate[i]` what became of `enq[i]`;
      `handed` and `dropped` list the settled positions in the order they were settled. */
  datatype Lane = Lane(
    queue: seq<Slot>,
    enq: seq<Queued>,
    fate: seq<Fate>,
    handed: seq<nat>,
    dropped: seq<nat>,
    discarded: nat)

  const EMPTY_LANE := Lane([], [], [], [], [], 0)

  function Total(queue: seq<Slot>): (n: nat) {
    if queue == [] then 0 else |queue[0].item.frame| + Total(queue[1..])
  }

  function Enqueue(l: Lane, item: Queued): Lane {
    l.(queue := l.queue + [Slot(|l.enq|, item)], enq := l.enq + [item], fate := l.fate + [Waiting])
  }

  /** Take the `k`-th queued frame out of the queue and record what became of it. */
  function Settle(l: Lane, k: nat, f: Fate): Lane
    requires k < |l.queue|
  {
    var id := l.queue[k].id;
    l.(queue := Remove(l.queue, k),
       fate := if id < |l.fate| then l.fate[id := f] else l.fate,
       handed := if f.Handed? then l.handed + [id] else l.handed,
       dropped := if f.Handed? then l.dropped else l.dropped + [id])
  }

  /** Throw away everything still queued. */
  function Discard(l: Lane): Lane {
    l.(queue := [],
       fate := seq(|l.fate|, i requires 0 <= i < |l.fate| => if l.fate[i].Waiting? then Discarded else l.fate[i]),
       discarded := l.discarded + |l.queue|)
  }

  /** The queue is exactly the waiting frames in enqueue order, every other frame is in
      exactly one of the settled lists, and the recipient got its frames in enqueue order. */
  ghost predicate Ok(l: Lane) {
    && |l.fate| == |l.enq|
    && QueueOk(l)
    && HandedOk(l)
    && DroppedOk(l)
    && |l.enq| == |l.handed| + |l.dropped| + |l.queue| + l.discarded
  }

  ghost predicate QueueOk(l: Lane)
    requires |l.fate| == |l.enq|
  {
    && AllPoint(l.queue, l.enq, l.fate)
    && Sorted(l.queue)
    && (forall i :: 0 <= i < |l.enq| && l.fate[i].Waiting? ==> Holds(l.queue, i))
  }

  /** Some entry of the queue is the frame at position `id`. */
  ghost predicate Holds(queue: seq<Slot>, id: int) {
    exists k :: 0 <= k < |queue| && queue[k].id == id
  }

  ghost predicate HandedOk(l: Lane)
    requires |l.fate| == |l.enq|
  {
    && (forall k :: 0 <= k < |l.handed| ==> l.handed[k] < |l.enq| && l.fate[l.handed[k]].Handed?)
    && (forall j, k :: 0 <= j < k < |l.handed| ==> l.handed[j] < l.handed[k])
    && (forall i :: 0 <= i < |l.enq| && l.fate[i].Handed? ==> i in l.handed)
    && HandedFirst(l.handed, l.queue)
  }

  ghost predicate DroppedOk(l: Lane)
    requires |l.fate| == |l.enq|
  {
    && (forall k :: 0 <= k < |l.dropped| ==> l.dropped[k] < |l.enq| && l.fate[l.dropped[k]].Dropped())
    && (forall j, k :: 0 <= j < k < |l.dropped| ==> l.dropped[j] != l.dropped[k])
    && (forall i :: 0 <= i < |l.enq| && l.fate[i].Dropped() ==> i in l.dropped)
  }

  /** Nothing was thrown away by a close. */
  ghost predicate NoneDiscarded(l: Lane) {
    l.discarded == 0 && forall i :: 0 <= i < |l.fate| ==> !l.fate[i].Discarded?
  }

  lemma {:induction false} TotalAppend(q: seq<Slot>, s: Slot)
    ensures Total(q + [s]) == Total(q) + |s.item.frame|
  {
    if q == [] {
      assert q + [s] == [s];
    } else {
      TotalAppend(q[1..], s);
      assert (q + [s])[1..] == q[1..] + [s];
    }
  }

  lemma {:induction false} TotalRemove(q: seq<Slot>, k: nat)
    requires k < |q|
    ensures Total(Remove(q, k)) == Total(q) - |q[k].item.frame|
  {
    if k == 0 {
      assert Remove(q, 0) == q[1..];
    } else {
      TotalRemove(q[1..], k - 1);
      assert Remove(q, k)[1..] == Remove(q[1..], k - 1);
    }
  }

  lemma EnqueueQueueOk(l: Lane, item: Queued)
    requires Ok(l)
    ensures var m := Enqueue(l, item); |m.fate| == |m.enq| && QueueOk(m)
  {
    var m := Enqueue(l, item);
    var n := |l.queue|;
    assert m.queue[n] == Slot(|l.enq|, item);
    forall i | 0 <= i < |m.enq| && m.fate[i].Waiting? ensures Holds(m.queue, i) {
      if i < |l.enq| {
        var k :| 0 <= k < n && l.queue[k].id == i;
        assert m.queue[k].id == i;
      }
    }
    forall j, k | 0 <= j < k < |m.queue| ensures m.queue[j].id < m.queue[k].id {
      assert m.queue[j] == l.queue[j];
      if k < n { assert m.queue[k] == l.queue[k]; }
    }
  }

  lemma EnqueueHandedOk(l: Lane, item: Queued)
    requires Ok(l)
    ensures var m := Enqueue(l, item); |m.fate| == |m.enq| && HandedOk(m)
  {
    var m := Enqueue(l, item);
    forall j, k | 0 <= j < |m.handed| && 0 <= k < |m.queue| ensures m.handed[j] < m.queue[k].id {
      if k < |l.queue| { assert m.queue[k] == l.queue[k]; }
    }
  }

  lemma EnqueueOk(l: Lane, item: Queued)
    requires Ok(l)
    ensures Ok(Enqueue(l, item))
    ensures Total(Enqueue(l, item).queue) == Total(l.queue) + |item.frame|
  {
    TotalAppend(l.queue, Slot(|l.enq|, item));
    EnqueueQueueOk(l, item);
    EnqueueHandedOk(l, item);
  }

  /** Where the `n`-th entry of the queue was before the `k`-th one was removed. */
  function Origin(n: nat, k: nat): nat { if n < k then n else n + 1 }

  ghost predicate Sorted(queue: seq<Slot>) {
    forall j, k :: 0 <= j < k < |queue| ==> queue[j].id < queue[k].id
  }

  lemma RemoveSorted(q: seq<Slot>, k: nat)
    requires k < |q| && Sorted(q)
    ensures Sorted(Remove(q, k))
  {
    var r := Remove(q, k);
    forall i, j | 0 <= i < j < |r| ensures r[i].id < r[j].id {
      assert r[i] == q[Origin(i, k)] && r[j] == q[Origin(j, k)];
    }
  }

  /** Every queue entry carries the frame at its position, which is still waiting. */
  ghost predicate AllPoint(q: seq<Slot>, enq: seq<Queued>, fate: seq<Fate>) {
    forall n :: 0 <= n < |q| ==>
      q[n].id < |enq| && q[n].id < |fate| && enq[q[n].id] == q[n].item && fate[q[n].id].Waiting?
  }

  lemma RemovePoints(q: seq<Slot>, k: nat, enq: seq<Queued>, fate: seq<Fate>, f: Fate)
    requires k < |q| && Sorted(q)
    requires AllPoint(q, enq, fate)
    ensures AllPoint(Remove(q, k), enq, fate[q[k].id := f])
  {
    var r := Remove(q, k);
    forall n | 0 <= n < |r|
      ensures r[n].id < |enq| && r[n].id < |fate| && enq[r[n].id] == r[n].item && fate[q[k].id := f][r[n].id].Waiting?
    {
      var o := Origin(n, k);
      assert r[n] == q[o];
      assert q[o].id != q[k].id;
    }
  }

  lemma RemoveHolds(q: seq<Slot>, k: nat, id: int)
    requires k < |q| && Holds(q, id) && q[k].id != id
    ensures Holds(Remove(q, k), id)
  {
    var n :| 0 <= n < |q| && q[n].id == id;
    assert Remove(q, k)[if n < k then n else n - 1] == q[n];
  }

  lemma SettleQueueOk(l: Lane, k: nat, f: Fate)
    requires Ok(l) && k < |l.queue| && (f.Handed? || f.Dropped())
    ensures var m := Settle(l, k, f); |m.fate| == |m.enq| && QueueOk(m)
  {
    var m := Settle(l, k, f);
    RemovePoints(l.queue, k, l.enq, l.fate, f);
    RemoveSorted(l.queue, k);
    forall i | 0 <= i < |m.enq| && m.fate[i].Waiting? ensures Holds(m.queue, i) {
      RemoveHolds(l.queue, k, i);
    }
  }

  /** Everything handed out so far came before everything still queued. */
  ghost predicate HandedFirst(handed: seq<nat>, q: seq<Slot>) {
    forall j, k :: 0 <= j < |handed| && 0 <= k < |q| ==> handed[j] < q[k].id
  }

  lemma RemoveHandedFirst(handed: seq<nat>, q: seq<Slot>, k: nat)
    requires HandedFirst(handed, q) && k < |q| && Sorted(q)
    ensures HandedFirst(handed, Remove(q, k))
    ensures k == 0 ==> HandedFirst(handed + [q[0].id], Remove(q, 0))
  {
    forall j, n | 0 <= j < |handed| && 0 <= n < |q| - 1 ensures handed[j] < Remove(q, k)[n].id {
      assert Remove(q, k)[n] == q[Origin(n, k)];
    }
    if k == 0 {
      assert forall n :: 0 <= n < |q| - 1 ==> Remove(q, 0)[n] == q[n + 1];
    }
  }

  lemma SettleHandedOk(l: Lane, k: nat, f: Fate)
    requires Ok(l) && k < |l.queue| && (f.Handed? || f.Dropped())
    requires f.Handed? ==> k == 0
    ensures var m := Settle(l, k, f); |m.fate| == |m.enq| && HandedOk(m)
  {
    var m := Settle(l, k, f);
    RemoveHandedFirst(l.handed, l.queue, k);
    if f.Handed? {
      assert m.handed[|l.handed|] == l.queue[k].id;
      assert forall i :: i in l.handed ==> i in m.handed;
    }
  }

  lemma SettleDroppedOk(l: Lane, k: nat, f: Fate)
    requires Ok(l) && k < |l.queue| && (f.Handed? || f.Dropped())
    ensures var m := Settle(l, k, f); |m.fate| == |m.enq| && DroppedOk(m)
  {
    var m := Settle(l, k, f);
    if !f.Handed? {
      assert m.dropped[|l.dropped|] == l.queue[k].id;
      assert forall i :: i in l.dropped ==> i in m.dropped;
    }
  }

  /** Handing out the front of the queue, or dropping any entry, keeps the lane consistent. */
  lemma SettleOk(l: Lane, k: nat, f: Fate)
    requires Ok(l) && k < |l.queue| && (f.Handed? || f.Dropped())
    requires f.Handed? ==> k == 0
    ensures Ok(Settle(l, k, f))
    ensures l.queue[k].id < |l.fate| && l.fate[l.queue[k].id].Waiting?
    ensures Total(Settle(l, k, f).queue) == Total(l.queue) - |l.queue[k].item.frame|
  {
    SettleQueueOk(l, k, f);
    SettleHandedOk(l, k, f);
    SettleDroppedOk(l, k, f);
    TotalRemove(l.queue, k);
  }

  lemma DiscardOk(l: Lane)
    requires Ok(l)
    ensures Ok(Discard(l))
  {}

  /** History only grows, and a settled frame keeps its fate. */
  ghost predicate Grows(a: Lane, b: Lane)
  {
    && |a.fate| == |a.enq| && |b.fate| == |b.enq|
    && a.enq <= b.enq
    && a.handed <= b.handed
    && (forall i :: 0 <= i < |a.enq| && !a.fate[i].Waiting? ==> b.fate[i] == a.fate[i])
  }

  // ---- Video: gaps and decodability ----

  /** Position `i` holds an encoded frame (not a config) of sender `s`. */
  predicate FrameOf(enq: seq<Queued>, i: int, s: Sender) {
    0 <= i < |enq| && !IsConfig(enq[i].frame) && SenderOf(enq[i].frame) == s
  }

  /** `j` is the frame its sender encoded immediately before the frame at `i`. */
  ghost predicate IsPrev(enq: seq<Queued>, j: int, i: int) {
    && 0 <= j < i < |enq|
    && FrameOf(enq, i, SenderOf(enq[i].frame))
    && FrameOf(enq, j, SenderOf(enq[i].frame))
    && (forall k :: j < k < i ==> !FrameOf(enq, k, SenderOf(enq[i].frame)))
  }

  predicate IsDelta(f: Frame) { !IsConfig(f) && !IsKeyframe(f) }

  /** Every delta handed out follows a predecessor that was handed out too. */
  ghost predicate Decodable(l: Lane)
    requires |l.fate| == |l.enq|
  {
    forall i, j :: IsPrev(l.enq, j, i) && l.fate[i].Handed? && IsDelta(l.enq[i].frame) ==> l.fate[j].Handed?
  }

  /** A handed-out frame was fresh or a config, and no frame was skipped without a reason:
      it was stale, or its predecessor was lost and it is not itself a keyframe. */
  ghost predicate Timely(l: Lane)
    requires |l.fate| == |l.enq|
  {
    && (forall i :: 0 <= i < |l.enq| && l.fate[i].Handed? && !IsConfig(l.enq[i].frame) ==>
          l.fate[i].when - l.enq[i].at <= MAX_MEDIA_AGE)
    && (forall i :: 0 <= i < |l.enq| && l.fate[i].Skipped? ==>
          l.fate[i].when - l.enq[i].at > MAX_MEDIA_AGE || Orphan(l, i))
    && (forall i :: 0 <= i < |l.enq| && IsConfig(l.enq[i].frame) ==> !l.fate[i].Dropped())
  }

  /** A delta whose sender's previous frame was dropped for this recipient. */
  ghost predicate Orphan(l: Lane, i: int)
    requires |l.fate| == |l.enq|
  {
    0 <= i < |l.enq| && IsDelta(l.enq[i].frame) && exists j :: IsPrev(l.enq, j, i) && l.fate[j].Dropped()
  }

  /** A sender's waiting frames are always a suffix of the frames it sent. */
  ghost predicate SuffixWaits(l: Lane)
    requires |l.fate| == |l.enq|
  {
    forall i, j, s :: i < j && FrameOf(l.enq, i, s) && FrameOf(l.enq, j, s) && l.fate[i].Waiting? ==> l.fate[j].Waiting?
  }

  /** `i` is the latest frame of `s` that is no longer waiting. */
  ghost predicate LastSettled(l: Lane, s: Sender, i: int)
    requires |l.fate| == |l.enq|
  {
    && FrameOf(l.enq, i, s)
    && !l.fate[i].Waiting?
    && (forall j :: i < j && FrameOf(l.enq, j, s) ==> l.fate[j].Waiting?)
  }

  /** A sender is in a gap exactly when the last of its frames to be settled was dropped. */
  ghost predicate GapsExact(l: Lane, gaps: set<Sender>)
    requires |l.fate| == |l.enq|
  {
    forall s :: s in gaps <==> exists i :: LastSettled(l, s, i) && l.fate[i].Dropped()
  }

  ghost predicate VideoLive(l: Lane, gaps: set<Sender>)
    requires |l.fate| == |l.enq|
  {
    SuffixWaits(l) && GapsExact(l, gaps) && NoneDiscarded(l)
  }

  ghost predicate VideoLog(l: Lane)
    requires |l.fate| == |l.enq|
  {
    && (forall i :: 0 <= i < |l.enq| ==> IsVideo(l.enq[i].frame))
    && Decodable(l)
    && Timely(l)
  }

  lemma EnqueueLive(l: Lane, gaps: set<Sender>, item: Queued)
    requires Ok(l) && VideoLive(l, gaps)
    ensures VideoLive(Enqueue(l, item), gaps)
  {
    var m := Enqueue(l, item);
    assert forall i, s :: 0 <= i < |l.enq| ==> FrameOf(m.enq, i, s) == FrameOf(l.enq, i, s);
    assert forall s, i :: LastSettled(m, s, i) == LastSettled(l, s, i);
  }

  lemma EnqueueLog(l: Lane, item: Queued)
    requires Ok(l) && VideoLog(l) && IsVideo(item.frame)
    ensures VideoLog(Enqueue(l, item))
  {
    var m := Enqueue(l, item);
    EnqueuePrev(l, item);
    forall i | 0 <= i < |m.enq| && m.fate[i].Skipped?
      ensures m.fate[i].when - m.enq[i].at > MAX_MEDIA_AGE || Orphan(m, i)
    {
      if Orphan(l, i) {
        var j :| IsPrev(l.enq, j, i) && l.fate[j].Dropped();
        assert IsPrev(m.enq, j, i);
      }
    }
  }

  lemma EnqueuePrev(l: Lane, item: Queued)
    requires Ok(l)
    ensures forall i, j :: 0 <= i < |l.enq| ==> IsPrev(Enqueue(l, item).enq, j, i) == IsPrev(l.enq, j, i)
  {
    var m := Enqueue(l, item);
    assert forall i, s :: 0 <= i < |l.enq| ==> FrameOf(m.enq, i, s) == FrameOf(l.enq, i, s);
  }

  /** The frame is its sender's oldest one still waiting. */
  ghost predicate FirstWaiting(l: Lane, id: int)
    requires |l.fate| == |l.enq|
  {
    && 0 <= id < |l.enq| && l.fate[id].Waiting?
    && forall j :: 0 <= j < id && FrameOf(l.enq, j, SenderOf(l.enq[id].frame)) ==> !l.fate[j].Waiting?
  }

  /** The first non-config entry of the queue is its sender's oldest waiting frame. */
  lemma FirstInQueue(l: Lane, k: nat)
    requires Ok(l) && k < |l.queue| && !IsConfig(l.queue[k].item.frame)
    requires forall i :: 0 <= i < k ==> IsConfig(l.queue[i].item.frame)
    ensures FirstWaiting(l, l.queue[k].id)
  {
    var id := l.queue[k].id;
    forall j | 0 <= j < id && FrameOf(l.enq, j, SenderOf(l.enq[id].frame)) ensures !l.fate[j].Waiting? {
      forall n | 0 <= n < |l.queue| ensures l.queue[n].id != j {
        if n < k { assert IsConfig(l.enq[l.queue[n].id].frame); }
      }
      assert !Holds(l.queue, j);
    }
  }

  /** The frame before the oldest waiting one is the last one settled. */
  lemma PrevIsLastSettled(l: Lane, id: int, j: int)
    requires Ok(l) && SuffixWaits(l) && FirstWaiting(l, id) && IsPrev(l.enq, j, id)
    ensures LastSettled(l, SenderOf(l.enq[id].frame), j)
  {
    var s := SenderOf(l.enq[id].frame);
    forall k | j < k && FrameOf(l.enq, k, s) ensures l.fate[k].Waiting? {
      assert FrameOf(l.enq, id, s);
      if k < id { assert false; }
    }
  }

  /** Conversely, the last settled frame is the one right before the oldest waiting one. */
  lemma LastSettledIsPrev(l: Lane, id: int, j: int)
    requires Ok(l) && FirstWaiting(l, id) && !IsConfig(l.enq[id].frame)
    requires LastSettled(l, SenderOf(l.enq[id].frame), j)
    requires SuffixWaits(l)
    ensures IsPrev(l.enq, j, id)
  {
    var s := SenderOf(l.enq[id].frame);
    assert FrameOf(l.enq, id, s);
    assert j < id;
  }

  /** Settling a sender's oldest waiting frame, with the gap set updated to match,
      keeps the gap set exact. */
  lemma SettleGaps(l: Lane, gaps: set<Sender>, k: nat, f: Fate)
    requires Ok(l) && VideoLive(l, gaps)
    requires k < |l.queue| && (f.Handed? || f.Dropped())
    requires !IsConfig(l.queue[k].item.frame) && FirstWaiting(l, l.queue[k].id)
    ensures var s := SenderOf(l.queue[k].item.frame);
            VideoLive(Settle(l, k, f), if f.Handed? then gaps - {s} else gaps + {s})
  {
    var m := Settle(l, k, f);
    var id := l.queue[k].id;
    var s := SenderOf(l.queue[k].item.frame);
    var gaps' := if f.Handed? then gaps - {s} else gaps + {s};
    assert FrameOf(l.enq, id, s);
    assert LastSettled(m, s, id);
    forall t ensures t in gaps' <==> exists i :: LastSettled(m, t, i) && m.fate[i].Dropped() {
      if t == s {
        assert forall i :: LastSettled(m, s, i) ==> i == id;
      } else {
        assert forall i :: LastSettled(m, t, i) == LastSettled(l, t, i);
      }
    }
  }

  lemma SettleConfigGaps(l: Lane, gaps: set<Sender>, k: nat, f: Fate)
    requires Ok(l) && VideoLive(l, gaps)
    requires k < |l.queue| && f.Handed? && IsConfig(l.queue[k].item.frame)
    ensures VideoLive(Settle(l, k, f), gaps)
  {
    var m := Settle(l, k, f);
    assert m.enq == l.enq;
    assert forall s, i :: LastSettled(m, s, i) == LastSettled(l, s, i);
  }

  /** When a decision on a sender's oldest waiting frame is justified. */
  ghost predicate Justified(l: Lane, gaps: set<Sender>, k: nat, f: Fate)
    requires k < |l.queue|
  {
    var item := l.queue[k].item;
    var s := SenderOf(item.frame);
    match f
    case Handed(t) =>
      IsConfig(item.frame) || (t - item.at <= MAX_MEDIA_AGE && (s in gaps ==> IsKeyframe(item.frame)))
    case Skipped(t) =>
      !IsConfig(item.frame) && (t - item.at > MAX_MEDIA_AGE || (s in gaps && !IsKeyframe(item.frame)))
    case Evicted => !IsConfig(item.frame)
    case _ => false
  }

  lemma SettleDecodable(l: Lane, gaps: set<Sender>, k: nat, f: Fate)
    requires Ok(l) && VideoLive(l, gaps) && Decodable(l)
    requires k < |l.queue| && Justified(l, gaps, k, f)
    requires !IsConfig(l.queue[k].item.frame) ==> FirstWaiting(l, l.queue[k].id)
    ensures |Settle(l, k, f).fate| == |l.enq| && Decodable(Settle(l, k, f))
  {
    var m := Settle(l, k, f);
    var id := l.queue[k].id;
    assert m.enq == l.enq;
    forall i, j | IsPrev(m.enq, j, i) && m.fate[i].Handed? && IsDelta(m.enq[i].frame) ensures m.fate[j].Handed? {
      if i == id {
        PrevIsLastSettled(l, id, j);
        assert SenderOf(l.enq[id].frame) !in gaps;
        assert !l.fate[j].Dropped();
      } else {
        assert l.fate[i].Handed? && l.fate[j].Handed?;
      }
    }
  }

  lemma SettleOrphan(l: Lane, k: nat, f: Fate, i: int)
    requires Ok(l) && k < |l.queue| && (f.Handed? || f.Dropped()) && Orphan(l, i)
    ensures |Settle(l, k, f).fate| == |l.enq| && Orphan(Settle(l, k, f), i)
  {
    var j :| IsPrev(l.enq, j, i) && l.fate[j].Dropped();
    assert Settle(l, k, f).fate[j].Dropped();
  }

  lemma SettleTimely(l: Lane, gaps: set<Sender>, k: nat, f: Fate)
    requires Ok(l) && VideoLive(l, gaps) && Timely(l)
    requires k < |l.queue| && Justified(l, gaps, k, f)
    requires !IsConfig(l.queue[k].item.frame) ==> FirstWaiting(l, l.queue[k].id)
    ensures |Settle(l, k, f).fate| == |l.enq| && Timely(Settle(l, k, f))
  {
    var m := Settle(l, k, f);
    var id := l.queue[k].id;
    forall i | 0 <= i < |m.enq| && m.fate[i].Skipped?
      ensures m.fate[i].when - m.enq[i].at > MAX_MEDIA_AGE || Orphan(m, i)
    {
      if i != id {
        if Orphan(l, i) { SettleOrphan(l, k, f, i); }
      } else if f.when - m.enq[i].at <= MAX_MEDIA_AGE {
        SkippedOrphan(l, gaps, k);
        SettleOrphan(l, k, f, i);
      }
    }
  }

  /** A justified decision keeps the history decodable and timely. */
  lemma SettleLog(l: Lane, gaps: set<Sender>, k: nat, f: Fate)
    requires Ok(l) && VideoLive(l, gaps) && VideoLog(l)
    requires k < |l.queue| && Justified(l, gaps, k, f)
    requires !IsConfig(l.queue[k].item.frame) ==> FirstWaiting(l, l.queue[k].id)
    ensures |Settle(l, k, f).fate| == |l.enq| && VideoLog(Settle(l, k, f))
  {
    SettleDecodable(l, gaps, k, f);
    SettleTimely(l, gaps, k, f);
  }

  /** The gap set after a decision: a config leaves it alone, a handed-out frame ends its sender's gap,
      a lost one opens it. */
  function GapsAfter(gaps: set<Sender>, frame: Frame, f: Fate): set<Sender> {
    if IsConfig(frame) then gaps else if f.Handed? then gaps - {SenderOf(frame)} else gaps + {SenderOf(frame)}
  }

  lemma SettleLive(l: Lane, gaps: set<Sender>, k: nat, f: Fate)
    requires Ok(l) && VideoLive(l, gaps)
    requires k < |l.queue| && Justified(l, gaps, k, f)
    requires !IsConfig(l.queue[k].item.frame) ==> FirstWaiting(l, l.queue[k].id)
    ensures |Settle(l, k, f).fate| == |l.enq|
    ensures VideoLive(Settle(l, k, f), GapsAfter(gaps, l.queue[k].item.frame, f))
  {
    if IsConfig(l.queue[k].item.frame) {
      SettleConfigGaps(l, gaps, k, f);
    } else {
      SettleGaps(l, gaps, k, f);
    }
  }

  lemma SettleGrows(l: Lane, k: nat, f: Fate)
    requires Ok(l) && k < |l.queue|
    ensures Grows(l, Settle(l, k, f))
    ensures l.queue[k].id < |l.enq| && l.enq[l.queue[k].id] == l.queue[k].item
  {}

  /** A justified decision on the frame at `k` keeps everything there is to keep of the video lane. */
  lemma SettleVideo(l: Lane, gaps: set<Sender>, k: nat, f: Fate)
    requires Ok(l) && VideoLive(l, gaps) && VideoLog(l)
    requires k < |l.queue| && Justified(l, gaps, k, f) && (f.Handed? ==> k == 0)
    requires forall i :: 0 <= i < k ==> IsConfig(l.queue[i].item.frame)
    ensures Ok(Settle(l, k, f)) && VideoLog(Settle(l, k, f)) && Grows(l, Settle(l, k, f))
    ensures VideoLive(Settle(l, k, f), GapsAfter(gaps, l.queue[k].item.frame, f))
    ensures Total(Settle(l, k, f).queue) == Total(l.queue) - |l.queue[k].item.frame|
    ensures l.queue[k].id < |l.enq| && l.enq[l.queue[k].id] == l.queue[k].item
  {
    SettleOk(l, k, f);
    SettleGrows(l, k, f);
    if !IsConfig(l.queue[k].item.frame) {
      FirstInQueue(l, k);
    }
    SettleLive(l, gaps, k, f);
    SettleLog(l, gaps, k, f);
  }

  lemma SkippedOrphan(l: Lane, gaps: set<Sender>, k: nat)
    requires Ok(l) && VideoLive(l, gaps) && k < |l.queue|
    requires SenderOf(l.queue[k].item.frame) in gaps
    requires IsDelta(l.queue[k].item.frame) && FirstWaiting(l, l.queue[k].id)
    ensures Orphan(l, l.queue[k].id)
  {
    var s := SenderOf(l.queue[k].item.frame);
    var j :| LastSettled(l, s, j) && l.fate[j].Dropped();
    LastSettledIsPrev(l, l.queue[k].id, j);
  }

  lemma DiscardLog(l: Lane)
    requires Ok(l) && VideoLog(l)
    ensures VideoLog(Discard(l))
  {
    var m := Discard(l);
    forall i | 0 <= i < |m.enq| && m.fate[i].Skipped?
      ensures m.fate[i].when - m.enq[i].at > MAX_MEDIA_AGE || Orphan(m, i)
    {
      if Orphan(l, i) {
        var j :| IsPrev(l.enq, j, i) && l.fate[j].Dropped();
        assert IsPrev(m.enq, j, i) && m.fate[j].Dropped();
      }
    }
  }

  /** The last frame of sender `s` before position `i`, or -1 when it is its first. */
  ghost function Before(enq: seq<Queued>, i: nat, s: Sender): (j: int)
    requires i <= |enq|
    ensures -1 <= j < i
    ensures j >= 0 ==> FrameOf(enq, j, s)
    ensures forall k :: j < k < i ==> !FrameOf(enq, k, s)
  {
    if i == 0 then -1 else if FrameOf(enq, i - 1, s) then i - 1 else Before(enq, i - 1, s)
  }

  /** Nothing of sender `s` was lost between `from` and `to`, both included. */
  ghost predicate Unbroken(l: Lane, s: Sender, from: int, to: int)
    requires |l.fate| == |l.enq|
  {
    forall k :: from <= k <= to && FrameOf(l.enq, k, s) ==> l.fate[k].Handed?
  }

  /** Every handed-out video frame sits at the end of an unbroken handed-out run that
      starts with a keyframe or with the first frame its sender ever queued. */
  lemma {:induction false} DecodableRun(l: Lane, i: nat) returns (root: nat)
    requires |l.fate| == |l.enq| && Decodable(l)
    requires i < |l.enq| && l.fate[i].Handed? && !IsConfig(l.enq[i].frame)
    ensures root <= i
    ensures var s := SenderOf(l.enq[i].frame);
            && FrameOf(l.enq, root, s)
            && (IsKeyframe(l.enq[root].frame) || forall k :: 0 <= k < root ==> !FrameOf(l.enq, k, s))
            && Unbroken(l, s, root, i)
  {
    var s := SenderOf(l.enq[i].frame);
    var j := Before(l.enq, i, s);
    if IsKeyframe(l.enq[i].frame) || j < 0 {
      root := i;
    } else {
      assert IsPrev(l.enq, j, i);
      root := DecodableRun(l, j);
    }
  }
}
