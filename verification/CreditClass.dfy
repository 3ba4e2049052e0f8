/** The sink's handlers on either side, as the closures that update `dead`, `inFlight` and `drops` in place. */
module CreditClass {
  import opened Credit

  class VideoSink {
    // The page's side.
    var dead: bool
    var inFlight: nat
    // The channels.
    var toWorker: seq<PageMsg>
    var toPage: seq<WorkerMsg>
    // The worker's side.
    var open: bool
    var drops: nat
    var pending: seq<nat>

    var offered: nat
    ghost var released: seq<nat>
    ghost var unacked: nat

    ghost function State(): Sink
      reads this
    {
      Sink(dead, inFlight, toWorker, toPage, open, drops, pending, offered, released, unacked)
    }

    constructor ()
      ensures State() == START
    {
      dead, inFlight, toWorker, toPage := false, 0, [], [];
      open, drops, pending, offered, released, unacked := true, 0, [], 0, [], 0;
    }

    /** Offer the next frame; the result says whether the sink took it over. */
    method Write(posts: bool) returns (taken: bool)
      modifies this
      ensures State() == Credit.Write(old(State()), posts) && taken == !old(dead)
    {
      if dead {
        return false;
      }
      var frame := offered;
      offered := offered + 1;
      if inFlight >= SINK_MAX_IN_FLIGHT {
        released := released + [frame];
      } else if posts {
        toWorker := toWorker + [Present(frame)];
        inFlight := inFlight + 1;
      } else {
        released := released + [frame];
        Close();
      }
      return true;
    }

    method Close()
      modifies this
      ensures State() == Credit.Close(old(State()))
    {
      if !dead {
        dead := true;
        toWorker := toWorker + [SinkClose];
      }
    }

    /** The page hears the oldest message from the worker. */
    method OnMessage()
      modifies this
      ensures State() == Hear(old(State()))
    {
      if toPage == [] {
        return;
      }
      var m := toPage[0];
      toPage := toPage[1..];
      if dead {
        return;
      }
      if m == SinkError {
        dead := true;
      } else if inFlight > 0 {
        inFlight := inFlight - 1;
      }
    }

    /** The worker takes the oldest message from the page. */
    method WorkerOnMessage(stalled: bool)
      modifies this
      ensures State() == Take(old(State()), stalled)
    {
      if toWorker == [] {
        return;
      }
      var m := toWorker[0];
      toWorker := toWorker[1..];
      match m
      case Present(frame) => PresentToSink(frame, stalled);
      case SinkClose => open := false;
    }

    method PresentToSink(frame: nat, stalled: bool)
      modifies this
      ensures State() == Credit.PresentToSink(old(State()), frame, stalled)
    {
      if !open {
        released, unacked := released + [frame], unacked + 1;
        return;
      }
      if stalled {
        released := released + [frame];
        toPage := toPage + [SinkAck];
        drops := drops + 1;
        if drops >= SINK_STALL_DROP_LIMIT {
          open := false;
          toPage := toPage + [SinkError];
        }
        return;
      }
      drops := 0;
      pending := pending + [frame];
    }

    /** What follows a write that was pending: its frame is gone either way. */
    method OnSettled(i: nat, ok: bool)
      requires i < |pending|
      modifies this
      ensures State() == Settle(old(State()), i, ok)
    {
      released := released + [pending[i]];
      pending := pending[..i] + pending[i + 1..];
      toPage := toPage + [SinkAck];
      if !ok {
        open := false;
        toPage := toPage + [SinkError];
        assert old(toPage) + [SinkAck] + [SinkError] == old(toPage) + [SinkAck, SinkError];
      }
    }
  }
}
