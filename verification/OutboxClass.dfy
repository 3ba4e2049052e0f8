/** A room connection's outbox as the broker keeps it: deques, counters and events updated in place. */
module OutboxClass {
  import opened Lists
  import opened Options
  import opened OutboxFrames
  import opened OutboxLane
  import opened OutboxQueue
  import Drain = OutboxDrain

  /** The frames of a queue, as the deque holds them. */
  function Items(q: seq<Slot>): seq<Queued> {
    seq(|q|, i requires 0 <= i < |q| => q[i].item)
  }

  lemma ItemsRemove(q: seq<Slot>, k: nat)
    requires k < |q|
    ensures Items(Remove(q, k)) == Items(q)[..k] + Items(q)[k + 1..]
    ensures k == 0 ==> Items(Remove(q, 0)) == Items(q)[1..]
  {}

  lemma ItemsAppend(q: seq<Slot>, s: Slot)
    ensures Items(q + [s]) == Items(q) + [s.item]
  {}

  /** The queueing fields of an outbox. */
  datatype Fields = Fields(
    json: seq<Json>, audio: seq<Queued>, video: seq<Queued>, bytes: int, gaps: set<Sender>,
    droppedVideo: nat, droppedAudio: nat, requests: seq<Sender>)

  function FieldsOf(b: Box): Fields {
    Fields(b.json, Items(b.audio.queue), Items(b.video.queue), b.bytes, b.gaps,
           b.droppedVideo, b.droppedAudio, b.requested)
  }

  /** Dropping or handing out the front of the audio queue, as the fields see it. */
  lemma AudioTaken(b: Box, why: Fate, now: real)
    requires b.audio.queue != []
    ensures var a, f := Items(b.audio.queue), FieldsOf(b);
            var rest := f.(audio := a[1..], bytes := f.bytes - |a[0].frame|);
            && FieldsOf(OutboxQueue.DropAudio(b, why)) == rest.(droppedAudio := f.droppedAudio + 1)
            && FieldsOf(OutboxQueue.HandAudio(b, now)) == rest
  {
    ItemsRemove(b.audio.queue, 0);
  }

  class Outbox {
    var json: seq<Json>
    var audio: seq<Queued>
    var video: seq<Queued>
    var mediaBytes: int
    var gaps: set<Sender>
    var wake: bool
    var idle: bool
    var closed: bool
    var abandoned: bool
    var droppedVideo: nat
    var droppedAudio: nat
    /** Every call made to `on_video_gap`, in order. */
    var requests: seq<Sender>
    /** Where the drain task stands. */
    var pc: Drain.Pc

    /** The same state with the history of every frame. */
    ghost var m: Drain.Machine

    ghost predicate Lanes()
      reads this
    {
      Fields(json, audio, video, mediaBytes, gaps, droppedVideo, droppedAudio, requests) == FieldsOf(m.box)
    }

    ghost predicate Events()
      reads this
    {
      (wake, idle, closed, abandoned, pc) == (m.wake, m.idle, m.closed, m.abandoned, m.pc)
    }

    ghost predicate Valid()
      reads this
    {
      Lanes() && Events() && (closed ==> pc.Gone?)
    }

    constructor ()
      ensures Valid() && m == Drain.INIT
    {
      json, audio, video, mediaBytes, gaps := [], [], [], 0, {};
      wake, idle, closed, abandoned := false, true, false, false;
      droppedVideo, droppedAudio, requests := 0, 0, [];
      pc := Drain.NoTask;
      m := Drain.INIT;
    }

    /** A video frame is lost: its sender enters the gap set and is asked for a keyframe. */
    method DropVideo(frame: Frame)
      modifies this`droppedVideo, this`gaps, this`requests
      ensures droppedVideo == old(droppedVideo) + 1
      ensures gaps == old(gaps) + {SenderOf(frame)}
      ensures requests == old(requests) + [SenderOf(frame)]
    {
      droppedVideo := droppedVideo + 1;
      var sender := SenderOf(frame);
      if sender !in gaps {
        gaps := gaps + {sender};
      }
      requests := requests + [sender];
    }

    /** Take the `k`-th queued video frame out as dropped. */
    method DropVideoAt(k: nat, ghost why: Fate)
      requires Lanes() && k < |video|
      modifies this`video, this`mediaBytes, this`gaps, this`droppedVideo, this`requests, this`m
      ensures Lanes()
      ensures k < |old(m.box.video.queue)| && m == old(m).(box := OutboxQueue.DropVideo(old(m.box), k, why))
    {
      ItemsRemove(m.box.video.queue, k);
      var frame := video[k].frame;
      video := video[..k] + video[k + 1..];
      mediaBytes := mediaBytes - |frame|;
      DropVideo(frame);
      m := m.(box := OutboxQueue.DropVideo(m.box, k, why));
    }

    /** Drop the oldest droppable frame, video before audio. */
    method EvictOldest() returns (evicted: bool)
      requires Lanes()
      modifies this`audio, this`video, this`mediaBytes, this`gaps, this`droppedVideo, this`droppedAudio, this`requests,
               this`m
      ensures Lanes()
      ensures m == old(m).(box := OutboxQueue.EvictOldest(old(m.box)).0)
      ensures evicted == OutboxQueue.EvictOldest(old(m.box)).1
    {
      var i := 0;
      ghost var k := FirstDroppable(m.box.video.queue);
      while i < |video|
        invariant i <= k && i <= |video|
        invariant Lanes() && m == old(m)
      {
        if !IsConfig(video[i].frame) {
          DropVideoAt(i, Evicted);
          return true;
        }
        i := i + 1;
      }
      if audio != [] {
        var frame := audio[0].frame;
        audio := audio[1..];
        mediaBytes := mediaBytes - |frame|;
        droppedAudio := droppedAudio + 1;
        ItemsRemove(m.box.audio.queue, 0);
        m := m.(box := OutboxQueue.DropAudio(m.box, Evicted));
        return true;
      }
      return false;
    }

    /** Take the next audio frame worth sending, dropping stale ones. */
    method NextAudio(now: real) returns (frame: Option<Frame>)
      requires Lanes()
      modifies this`audio, this`mediaBytes, this`droppedAudio, this`m
      ensures Lanes()
      ensures (m.box, frame) == OutboxQueue.NextAudio(old(m.box), now)
      ensures m == old(m).(box := m.box)
    {
      ghost var b0 := m.box;
      while audio != []
        invariant Lanes() && m == old(m).(box := m.box)
        invariant OutboxQueue.NextAudio(m.box, now) == OutboxQueue.NextAudio(b0, now)
        decreases |audio|
      {
        var item := audio[0];
        AudioTaken(m.box, Skipped(now), now);
        audio := audio[1..];
        mediaBytes := mediaBytes - |item.frame|;
        if now - item.at > MAX_MEDIA_AGE {
          droppedAudio := droppedAudio + 1;
          m := m.(box := OutboxQueue.DropAudio(m.box, Skipped(now)));
        } else {
          m := m.(box := OutboxQueue.HandAudio(m.box, now));
          return Some(item.frame);
        }
      }
      return None;
    }

    /** Take the first queued video frame out to be sent; it ends its sender's gap. */
    method HandVideo(now: real)
      requires Lanes() && video != []
      modifies this`video, this`mediaBytes, this`gaps, this`m
      ensures Lanes()
      ensures old(m.box.video.queue) != [] && m == old(m).(box := OutboxQueue.HandVideo(old(m.box), now))
    {
      ItemsRemove(m.box.video.queue, 0);
      var frame := video[0].frame;
      video := video[1..];
      mediaBytes := mediaBytes - |frame|;
      if !IsConfig(frame) {
        gaps := gaps - {SenderOf(frame)};
      }
      m := m.(box := OutboxQueue.HandVideo(m.box, now));
    }

    /** Pop video frames until one is deliverable; those passed over are dropped. */
    method NextVideo(now: real) returns (frame: Option<Frame>)
      requires Lanes()
      modifies this`video, this`mediaBytes, this`gaps, this`droppedVideo, this`requests, this`m
      ensures Lanes()
      ensures (m.box, frame) == OutboxQueue.NextVideo(old(m.box), now)
      ensures m == old(m).(box := m.box)
    {
      ghost var b0 := m.box;
      while video != []
        invariant Lanes() && m == old(m).(box := m.box)
        invariant OutboxQueue.NextVideo(m.box, now) == OutboxQueue.NextVideo(b0, now)
        decreases |video|
      {
        var item := video[0];
        var sender := SenderOf(item.frame);
        var worth := true;
        if !IsConfig(item.frame) {
          if sender in gaps {
            worth := IsKeyframe(item.frame) && now - item.at <= MAX_MEDIA_AGE;
          } else {
            worth := !(now - item.at > MAX_MEDIA_AGE);
          }
        }
        if worth {
          HandVideo(now);
          return Some(item.frame);
        }
        DropVideoAt(0, Skipped(now));
      }
      return None;
    }

    /** What goes out next: audio while there is any, video after it. */
    method NextMedia(now: real) returns (frame: Option<Frame>)
      requires Lanes()
      modifies this`audio, this`video, this`mediaBytes, this`gaps, this`droppedVideo, this`droppedAudio, this`requests,
               this`m
      ensures Lanes()
      ensures (m.box, frame) == OutboxQueue.NextMedia(old(m.box), now)
      ensures m == old(m).(box := m.box)
    {
      frame := NextAudio(now);
      if frame.None? {
        frame := NextVideo(now);
      }
    }

    /** Put a frame at the back of its lane. */
    method Push(item: Queued)
      requires Lanes()
      modifies this`audio, this`video, this`mediaBytes, this`m
      ensures Lanes()
      ensures m == old(m).(box := PushMedia(old(m.box), item))
    {
      ItemsAppend(m.box.video.queue, Slot(|m.box.video.enq|, item));
      ItemsAppend(m.box.audio.queue, Slot(|m.box.audio.enq|, item));
      if IsVideo(item.frame) {
        video := video + [item];
      } else {
        audio := audio + [item];
      }
      mediaBytes := mediaBytes + |item.frame|;
      m := m.(box := PushMedia(m.box, item));
    }

    /** Evict frames until the backlog fits or nothing droppable is left. */
    method Trim()
      requires Lanes()
      modifies this`audio, this`video, this`mediaBytes, this`gaps, this`droppedVideo, this`droppedAudio, this`requests,
               this`m
      ensures Lanes()
      ensures m == old(m).(box := EvictDown(old(m.box)))
    {
      ghost var b := m.box;
      while mediaBytes > MAX_MEDIA_BACKLOG_BYTES
        invariant Lanes() && m == old(m).(box := m.box)
        invariant EvictDown(m.box) == EvictDown(b)
        decreases |audio| + |video|
      {
        var evicted := EvictOldest();
        if !evicted {
          break;
        }
      }
    }

    /** Take the next item to send, JSON before media. */
    method TakeItem(clock: Drain.Clock) returns (item: Option<Drain.Item>)
      requires Lanes()
      modifies this`json
      modifies this`audio, this`video, this`mediaBytes, this`gaps, this`droppedVideo, this`droppedAudio, this`requests,
               this`m
      ensures Lanes() && m == old(m).(box := m.box)
      ensures (m.box, item) == Drain.Take(old(m.box), clock)
    {
      if json != [] {
        item := Some(Drain.Text(json[0]));
        json := json[1..];
        m := m.(box := PopJson(m.box));
      } else {
        var frame := NextMedia(clock(|audio| + |video|));
        item := if frame.Some? then Some(Drain.Media(frame.value)) else None;
      }
    }

    /** Empty all three lanes; with nothing left to send the outbox is idle. */
    method Clear()
      modifies this`json, this`audio, this`video, this`mediaBytes, this`idle
      ensures json == [] && audio == [] && video == [] && mediaBytes == 0 && idle
    {
      json, audio, video, mediaBytes, idle := [], [], [], 0, true;
    }

    /** There is work: not idle any more, the drain woken, or created if it never was. */
    method Kick()
      requires Valid()
      modifies this`idle, this`wake, this`pc, this`m
      ensures Valid() && m == Drain.Kick(old(m))
    {
      idle, wake := false, true;
      if pc.NoTask? {
        pc := Drain.Created;
      }
      m := Drain.Kick(m);
    }

    /** The recipient no longer takes anything: throw the backlog away and end the drain. */
    method Shut()
      requires Valid()
      modifies this
      ensures Valid() && m == Drain.Shut(old(m))
    {
      closed := true;
      Clear();
      abandoned := true;
      pc := Drain.Gone;
      m := Drain.Shut(m);
    }

    /** Close from outside: the drain ends and the backlog goes with it. */
    method AClose()
      requires Valid()
      modifies this
      ensures Valid() && m == Drain.AClose(old(m))
    {
      closed := true;
      Clear();
      pc := Drain.Gone;
      m := Drain.AClose(m);
    }

    method SendJson(payload: Json)
      requires Valid()
      modifies this
      ensures Valid() && m == Drain.SendJson(old(m), payload)
    {
      if closed {
        return;
      }
      if |json| >= Drain.MAX_JSON_BACKLOG {
        Shut();
        return;
      }
      json := json + [payload];
      m := m.(box := PushJson(m.box, payload));
      Kick();
    }

    /** Append a frame to its lane, then evict down to the byte budget. */
    method SendMedia(now: real, frame: Frame)
      requires Valid()
      modifies this
      ensures Valid() && m == Drain.SendMedia(old(m), now, frame)
    {
      if closed {
        return;
      }
      Push(Queued(now, frame));
      Trim();
      Kick();
    }

    /** One turn of the inner loop: the next item goes out on a send, is dropped unsent, or is lacking. */
    method Turn(connected: bool, clock: Drain.Clock) returns (sending: bool, empty: bool)
      requires Lanes() && Events() && !closed
      modifies this
      ensures Lanes() && Events() && !closed && wake == old(wake)
      ensures sending ==> !empty && m == Drain.Pump(old(m), connected, clock)
      ensures empty ==> Drain.Wait(m, connected, clock) == Drain.Pump(old(m), connected, clock)
      ensures !sending && !empty ==>
                && Drain.Pump(m, connected, clock) == Drain.Pump(old(m), connected, clock)
                && |json| + |audio| + |video| < old(|json| + |audio| + |video|)
    {
      ghost var before := m;
      Drain.TakeShrinks(m.box, clock);
      var item := TakeItem(clock);
      assert m == before.(box := Drain.Take(before.box, clock).0);
      sending, empty := false, item.None?;
      if empty {
        idle := true;
        m := m.(idle := true);
      } else if connected {
        pc := Drain.Sending(item.value);
        m := m.(pc := Drain.Sending(item.value));
        sending := true;
      }
    }

    /** The drain's inner loop: take items until one goes out on a send, or none is left. */
    method Pump(connected: bool, clock: Drain.Clock) returns (sending: bool)
      requires Valid() && !closed
      modifies this
      ensures Valid() && !closed && wake == old(wake)
      ensures if sending then m == Drain.Pump(old(m), connected, clock)
              else Drain.Wait(m, connected, clock) == Drain.Pump(old(m), connected, clock)
    {
      ghost var end := Drain.Pump(m, connected, clock);
      var empty := false;
      sending := false;
      while !sending && !empty
        invariant Lanes() && Events() && !closed && wake == old(wake)
        invariant if sending then m == end
                  else if empty then Drain.Wait(m, connected, clock) == end
                  else Drain.Pump(m, connected, clock) == end
        decreases !sending && !empty, |json| + |audio| + |video|
      {
        sending, empty := Turn(connected, clock);
      }
    }

    /** The drain's loops, entered at the wait for `_wake` or right after a send. */
    method Loop(atSend: bool, connected: bool, clock: Drain.Clock)
      requires Valid() && !closed
      modifies this
      ensures Valid()
      ensures m == if atSend then Drain.Pump(old(m), connected, clock) else Drain.Wait(old(m), connected, clock)
    {
      if atSend {
        var sending := Pump(connected, clock);
        if sending {
          return;
        }
      }
      ghost var end := Drain.Wait(m, connected, clock);
      while wake
        invariant Valid() && !closed
        invariant end == Drain.Wait(m, connected, clock)
        decreases wake
      {
        wake := false;
        m := m.(wake := false);
        var sending := Pump(connected, clock);
        if sending {
          return;
        }
      }
      pc := Drain.Parked;
      m := m.(pc := Drain.Parked);
    }

    /** Run the drain task from where it stands to its next await. */
    method RunDrain(outcome: Drain.Outcome, connected: bool, clock: Drain.Clock)
      requires Valid()
      modifies this
      ensures Valid() && m == Drain.Resume(old(m), outcome, connected, clock)
    {
      if pc.NoTask? || pc.Gone? {
        return;
      }
      if pc.Sending? && outcome.TimedOut? {
        Shut();
        return;
      }
      Loop(pc.Sending?, connected, clock);
    }
  }
}
