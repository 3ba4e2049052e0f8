/** The worklet's adaptive jitter buffer: what every interleaving of packets and callbacks plays. */
module Jitter {
  import opened Options

  const TARGET_MIN := 2
  const TARGET_MAX := 4
  const MAX_BUFFER_PACKETS := 5
  const TRIM_AFTER := 250
  const DECAY_AFTER := 2000
  const DECAY_SLACK := 2

  type Packet = seq<real>

  /** The processor's fields. No slack seen yet counts as infinite. The last four are history: every
      packet ever queued, the positions of those taken to play, every sample of theirs put out, and
      the slack at each pull since the last fresh start. */
  datatype Player = Player(
    queue: seq<Packet>, current: Option<Packet>, offset: nat,
    target: nat, priming: bool, overCount: nat, cleanCount: nat, slackMin: Option<nat>,
    enqueued: seq<Packet>, taken: seq<int>, played: seq<real>, slacks: seq<int>)

  const START := Player([], None, 0, TARGET_MIN, true, 0, 0, None, [], [], [], [])

  function Min(a: int, b: int): int { if a < b then a else b }

  function Zeros(n: nat): seq<real> { seq(n, _ => 0.0) }

  // ---- One packet arrives ----

  function Enqueue(p: Player, packet: Packet): Player {
    p.(queue := (if |p.queue| >= MAX_BUFFER_PACKETS then p.queue[1..] else p.queue) + [packet],
       enqueued := p.enqueued + [packet])
  }

  // ---- One callback ----

  predicate Spent(p: Player) { p.current.None? || p.offset >= |p.current.value| }

  function Head(p: Player): int { |p.enqueued| - |p.queue| }

  function Pull(p: Player): Player
    requires p.queue != []
  {
    var slack := |p.queue| - 1;
    p.(queue := p.queue[1..], current := Some(p.queue[0]), offset := 0,
       slackMin := if p.slackMin.None? || slack < p.slackMin.value then Some(slack) else p.slackMin,
       taken := p.taken + [Head(p)], slacks := p.slacks + [slack])
  }

  function Copy(p: Player, k: nat): Player
    requires !Spent(p) && p.offset + k <= |p.current.value|
  {
    p.(offset := p.offset + k, played := p.played + p.current.value[p.offset..p.offset + k])
  }

  function RunDry(p: Player): Player {
    p.(priming := true, target := Min(p.target + 1, TARGET_MAX),
       overCount := 0, cleanCount := 0, slackMin := None, slacks := [])
  }

  /** Fill `n` samples from the packets in order; silence once they run out. */
  function Fill(p: Player, n: nat): (r: (Player, seq<real>))
    ensures |r.1| == n
    decreases n, |p.queue|
  {
    if n == 0 then (p, [])
    else if Spent(p) then if p.queue == [] then (RunDry(p), Zeros(n)) else Fill(Pull(p), n)
    else
      var k := Min(n, |p.current.value| - p.offset);
      var rest := Fill(Copy(p, k), n - k);
      (rest.0, p.current.value[p.offset..p.offset + k] + rest.1)
  }

  /** Drop a packet once depth above the target has stood for a while. */
  function Trim(p: Player): Player {
    if |p.queue| > p.target then
      if p.overCount + 1 >= TRIM_AFTER then p.(queue := p.queue[1..], overCount := 0)
      else p.(overCount := p.overCount + 1)
    else p.(overCount := 0)
  }

  /** Shrink the target after a long clean run over proven slack. */
  function Decay(p: Player): Player {
    if p.cleanCount + 1 < DECAY_AFTER then p.(cleanCount := p.cleanCount + 1)
    else
      p.(cleanCount := 0, slackMin := None, slacks := [],
         target := if p.target > TARGET_MIN && (p.slackMin.None? || p.slackMin.value >= DECAY_SLACK) then p.target - 1
                   else p.target)
  }

  function Process(p: Player, n: nat): (r: (Player, seq<real>))
    ensures |r.1| == n
  {
    if p.priming && |p.queue| < p.target then (p, Zeros(n))
    else
      var r := Fill(p.(priming := false), n);
      if r.0.priming then r else (Decay(Trim(r.0)), r.1)
  }

  // ---- What every run keeps ----

  function Concat(packets: seq<Packet>, which: seq<int>): seq<real>
    requires forall k :: 0 <= k < |which| ==> 0 <= which[k] < |packets|
  {
    if which == [] then [] else Concat(packets, which[..|which| - 1]) + packets[which[|which| - 1]]
  }

  ghost predicate Rising(ks: seq<int>, below: int) {
    && (forall k :: 0 <= k < |ks| ==> 0 <= ks[k] < below)
    && (forall i, j :: 0 <= i < j < |ks| ==> ks[i] < ks[j])
  }

  /** The queue is the newest of what arrived, and what was taken came before it, in order. */
  ghost predicate InOrder(p: Player) {
    && |p.queue| <= |p.enqueued| && p.queue == p.enqueued[Head(p)..]
    && Rising(p.taken, Head(p))
  }

  /** The samples put out are the taken packets whole, the last one as far as it has been played. */
  ghost predicate Exact(p: Player)
    requires InOrder(p)
  {
    if p.current.None? then p.taken == [] && p.played == []
    else
      && p.taken != [] && p.current == Some(p.enqueued[p.taken[|p.taken| - 1]]) && p.offset <= |p.current.value|
      && p.played == Concat(p.enqueued, p.taken[..|p.taken| - 1]) + p.current.value[..p.offset]
  }

  ghost predicate Bounded(p: Player) {
    && TARGET_MIN <= p.target <= TARGET_MAX && |p.queue| <= MAX_BUFFER_PACKETS
    && p.overCount < TRIM_AFTER && p.cleanCount < DECAY_AFTER
  }

  /** The slack tracked is the least of the pulls since the last fresh start. */
  ghost predicate LeastSlack(p: Player) {
    && (p.slackMin.None? <==> p.slacks == [])
    && (p.slackMin.Some? ==> p.slackMin.value in p.slacks && forall s :: s in p.slacks ==> p.slackMin.value <= s)
  }

  ghost predicate Inv(p: Player) { InOrder(p) && Exact(p) && Bounded(p) && LeastSlack(p) }

  lemma {:induction false} ConcatAppend(packets: seq<Packet>, more: seq<Packet>, which: seq<int>)
    requires forall k :: 0 <= k < |which| ==> 0 <= which[k] < |packets|
    ensures Concat(packets + more, which) == Concat(packets, which)
  {
    if which == [] {
    } else {
      ConcatAppend(packets, more, which[..|which| - 1]);
    }
  }

  lemma EnqueueInv(p: Player, packet: Packet)
    requires Inv(p)
    ensures Inv(Enqueue(p, packet))
  {
    var q := Enqueue(p, packet);
    assert q.queue == q.enqueued[Head(q)..];
    if p.current.Some? {
      ConcatAppend(p.enqueued, [packet], p.taken[..|p.taken| - 1]);
    }
  }

  lemma PullInv(p: Player)
    requires Inv(p) && p.queue != [] && Spent(p)
    ensures Inv(Pull(p)) && Pull(p).played == p.played
  {
    var q := Pull(p);
    assert q.taken == p.taken + [Head(p)] && q.taken[..|q.taken| - 1] == p.taken;
    assert q.current == Some(p.enqueued[Head(p)]);
    if p.current.Some? {
      assert p.current.value[..p.offset] == p.current.value;
    }
    assert q.played == Concat(q.enqueued, p.taken) + q.current.value[..0];
    assert q.queue == q.enqueued[Head(q)..];
    assert forall s :: s in q.slacks <==> s in p.slacks || s == |p.queue| - 1;
  }

  lemma CopyInv(p: Player, k: nat)
    requires Inv(p) && !Spent(p) && p.offset + k <= |p.current.value|
    ensures Inv(Copy(p, k))
  {
    var c := p.current.value;
    assert c[..p.offset] + c[p.offset..p.offset + k] == c[..p.offset + k];
  }

  /** `out` is the samples newly played, then silence; no silence unless the packets ran out. */
  ghost predicate Delivers(before: Player, after: Player, out: seq<real>) {
    && |before.played| <= |after.played| && after.played[..|before.played|] == before.played
    && var heard := after.played[|before.played|..];
       && |heard| <= |out| && out == heard + Zeros(|out| - |heard|)
       && (!after.priming ==> heard == out)
       && after.enqueued == before.enqueued
  }

  lemma RunDryInv(p: Player)
    requires Inv(p)
    ensures Inv(RunDry(p))
  {}

  lemma {:induction false} FillInv(p: Player, n: nat)
    requires Inv(p)
    ensures Inv(Fill(p, n).0)
    decreases n, |p.queue|
  {
    if n == 0 {
    } else if !Spent(p) {
      var k := Min(n, |p.current.value| - p.offset);
      CopyInv(p, k);
      FillInv(Copy(p, k), n - k);
      assert Fill(p, n).0 == Fill(Copy(p, k), n - k).0;
    } else if p.queue == [] {
      RunDryInv(p);
      assert Fill(p, n).0 == RunDry(p);
    } else {
      PullInv(p);
      FillInv(Pull(p), n);
      assert Fill(p, n).0 == Fill(Pull(p), n).0;
    }
  }

  lemma {:induction false} FillDelivers(p: Player, n: nat)
    requires !p.priming
    ensures Delivers(p, Fill(p, n).0, Fill(p, n).1)
    decreases n, |p.queue|
  {
    if n == 0 {
    } else if !Spent(p) {
      var k := Min(n, |p.current.value| - p.offset);
      FillDelivers(Copy(p, k), n - k);
      DeliversMore(p, Copy(p, k), Fill(Copy(p, k), n - k).0, p.current.value[p.offset..p.offset + k],
          Fill(Copy(p, k), n - k).1);
    } else if p.queue == [] {
      assert Zeros(n) == [] + Zeros(n);
    } else {
      FillDelivers(Pull(p), n);
    }
  }

  lemma DeliversMore(p: Player, q: Player, r: Player, chunk: seq<real>, rest: seq<real>)
    requires q.played == p.played + chunk && q.enqueued == p.enqueued && Delivers(q, r, rest)
    ensures Delivers(p, r, chunk + rest)
  {
    var heard := r.played[|q.played|..];
    assert r.played == q.played + heard;
    assert r.played[..|p.played|] == p.played;
    assert r.played[|p.played|..] == chunk + heard;
    assert chunk + rest == (chunk + heard) + Zeros(|rest| - |heard|);
  }

  lemma HeadDropped(p: Player)
    requires InOrder(p) && p.queue != []
    ensures InOrder(p.(queue := p.queue[1..]))
  {}

  lemma CountedInv(p: Player, count: nat)
    requires Inv(p) && count < TRIM_AFTER
    ensures Inv(p.(overCount := count))
  {}

  lemma ShortenedInv(p: Player)
    requires Inv(p) && p.queue != []
    ensures Inv(p.(queue := p.queue[1..]))
  {
    HeadDropped(p);
    assert Exact(p.(queue := p.queue[1..]));
  }

  lemma TrimInv(p: Player)
    requires Inv(p)
    ensures Inv(Trim(p))
  {
    if |p.queue| <= p.target {
      CountedInv(p, 0);
    } else if p.overCount + 1 < TRIM_AFTER {
      CountedInv(p, p.overCount + 1);
    } else {
      ShortenedInv(p);
      CountedInv(p.(queue := p.queue[1..]), 0);
    }
  }

  lemma DecayInv(p: Player)
    requires Inv(p)
    ensures Inv(Decay(p))
  {}

  lemma ProcessInv(p: Player, n: nat)
    requires Inv(p)
    ensures Inv(Process(p, n).0)
  {
    if !(p.priming && |p.queue| < p.target) {
      var q := p.(priming := false);
      FillInv(q, n);
      var r := Fill(q, n).0;
      TrimInv(r);
      DecayInv(Trim(r));
    }
  }

  /** A callback fills exactly its output: the samples newly played, then silence, and silence only
      while packets are lacking. */
  lemma ProcessDelivers(p: Player, n: nat)
    ensures Delivers(p, Process(p, n).0, Process(p, n).1)
  {
    if p.priming && |p.queue| < p.target {
      assert Zeros(n) == [] + Zeros(n);
    } else {
      FillDelivers(p.(priming := false), n);
    }
  }

  /** The target shrinks only over proven slack: every pull of the window left two packets or more. */
  lemma DecayIsProven(p: Player)
    requires Inv(p)
    ensures Decay(p).target < p.target ==> forall s :: s in p.slacks ==> s >= DECAY_SLACK
    ensures Decay(p).target >= p.target - 1
  {}

  // ---- What a callback plays ----

  function Flat(packets: seq<Packet>): seq<real> { if packets == [] then [] else packets[0] + Flat(packets[1..]) }

  /** Every sample there is to play: the rest of the current packet, then the queued ones. */
  function Available(p: Player): seq<real> {
    (if Spent(p) then [] else p.current.value[p.offset..]) + Flat(p.queue)
  }

  /** The same but for the packets and what is said of them. */
  ghost predicate SameTiming(p: Player, q: Player) {
    q.priming == p.priming && q.target == p.target && q.overCount == p.overCount && q.cleanCount == p.cleanCount
  }

  ghost predicate RanDry(p: Player, q: Player) {
    && q.priming && q.queue == [] && q.target == (if p.target < TARGET_MAX then p.target + 1 else TARGET_MAX)
    && q.overCount == 0 && q.cleanCount == 0 && q.slackMin.None?
  }

  /** `out` is the first of the samples there were, and what is left is left to play. */
  ghost predicate PlaysOn(p: Player, q: Player, out: seq<real>, n: nat) {
    n <= |Available(p)| && out == Available(p)[..n] && Available(q) == Available(p)[n..] && SameTiming(p, q)
  }

  /** `out` is all the samples there were, then silence, and playing starts over deeper. */
  ghost predicate PlaysOut(p: Player, q: Player, out: seq<real>, n: nat) {
    |Available(p)| < n && out == Available(p) + Zeros(n - |Available(p)|) && RanDry(p, q)
  }

  lemma CopyLeaves(p: Player, k: nat)
    requires !Spent(p) && p.offset + k <= |p.current.value|
    ensures k <= |Available(p)| && Available(p)[..k] == p.current.value[p.offset..p.offset + k]
    ensures Available(Copy(p, k)) == Available(p)[k..]
  {
    var rest := p.current.value[p.offset..];
    assert rest[k..] == p.current.value[p.offset + k..];
    assert Available(p)[k..] == rest[k..] + Flat(p.queue);
  }

  lemma OnAfter(p: Player, q: Player, r: Player, chunk: seq<real>, out: seq<real>, n: nat)
    requires |chunk| <= n && Available(p) == chunk + Available(q) && SameTiming(p, q)
    requires PlaysOn(q, r, out, n - |chunk|)
    ensures PlaysOn(p, r, chunk + out, n)
  {
    var k, a := |chunk|, Available(q);
    assert (chunk + a)[..n] == chunk + a[..n - k];
    assert (chunk + a)[n..] == a[n - k..];
  }

  lemma OutAfter(p: Player, q: Player, r: Player, chunk: seq<real>, out: seq<real>, n: nat)
    requires |chunk| <= n && Available(p) == chunk + Available(q) && SameTiming(p, q)
    requires PlaysOut(q, r, out, n - |chunk|)
    ensures PlaysOut(p, r, chunk + out, n)
  {
    var zeros := Zeros(n - |chunk| - |Available(q)|);
    assert chunk + (Available(q) + zeros) == (chunk + Available(q)) + zeros;
  }

  ghost predicate Plays(p: Player, r: (Player, seq<real>), n: nat) {
    PlaysOn(p, r.0, r.1, n) || PlaysOut(p, r.0, r.1, n)
  }

  lemma CopyFills(p: Player, n: nat, k: nat)
    requires n > 0 && !Spent(p) && k == Min(n, |p.current.value| - p.offset)
    ensures var rest := Fill(Copy(p, k), n - k);
            Fill(p, n) == (rest.0, p.current.value[p.offset..p.offset + k] + rest.1)
  {}

  lemma CopyPlays(p: Player, n: nat, k: nat, rest: (Player, seq<real>))
    requires k <= n && !Spent(p) && p.offset + k <= |p.current.value| && Plays(Copy(p, k), rest, n - k)
    ensures Plays(p, (rest.0, p.current.value[p.offset..p.offset + k] + rest.1), n)
  {
    var q, chunk := Copy(p, k), p.current.value[p.offset..p.offset + k];
    CopyLeaves(p, k);
    assert Available(p) == chunk + Available(q);
    if PlaysOn(q, rest.0, rest.1, n - k) {
      OnAfter(p, q, rest.0, chunk, rest.1, n);
    } else {
      OutAfter(p, q, rest.0, chunk, rest.1, n);
    }
  }

  /** Pulling a packet leaves what there is to play, and all the rest, as it was. */
  lemma PullPlays(p: Player, n: nat, r: (Player, seq<real>))
    requires Spent(p) && p.queue != [] && Plays(Pull(p), r, n)
    ensures Plays(p, r, n)
  {
    PullLeaves(p);
  }

  /** Filling plays the available samples in order, and falls silent only when there are no more. */
  lemma {:induction false} FillPlays(p: Player, n: nat)
    ensures Plays(p, Fill(p, n), n)
    decreases n, |p.queue|
  {
    if n == 0 {
    } else if !Spent(p) {
      var k := Min(n, |p.current.value| - p.offset);
      FillPlays(Copy(p, k), n - k);
      CopyPlays(p, n, k, Fill(Copy(p, k), n - k));
      CopyFills(p, n, k);
    } else if p.queue == [] {
      DryPlays(p, n);
    } else {
      FillPlays(Pull(p), n);
      PullPlays(p, n, Fill(Pull(p), n));
    }
  }

  lemma DryPlays(p: Player, n: nat)
    requires n > 0 && Spent(p) && p.queue == []
    ensures PlaysOut(p, RunDry(p), Zeros(n), n)
  {
    assert [] + Zeros(n) == Zeros(n);
  }

  lemma PullLeaves(p: Player)
    requires Spent(p) && p.queue != []
    ensures Available(Pull(p)) == Available(p) && SameTiming(p, Pull(p))
  {
    assert p.queue[0][0..] == p.queue[0];
    assert [] + Flat(p.queue[1..]) == Flat(p.queue[1..]);
    if p.queue[0] == [] { assert p.queue[0] + Flat(p.queue[1..]) == Flat(p.queue[1..]); }
  }

  /** A callback is silent, and changes nothing, exactly while it waits for `target` packets; from then on
      it plays every sample there is, in order, and is silent only past the last of them, which is
      when it starts to wait again for one packet more. */
  lemma ProcessPlays(p: Player, n: nat)
    ensures var r := Process(p, n);
            if p.priming && |p.queue| < p.target then r == (p, Zeros(n))
            else if n <= |Available(p)| then !r.0.priming && r.1 == Available(p)[..n]
            else r.1 == Available(p) + Zeros(n - |Available(p)|) && RanDry(p, r.0)
  {
    if !(p.priming && |p.queue| < p.target) {
      FillPlays(p.(priming := false), n);
    }
  }

  /** How the buffer settles after a callback that did not run dry. A packet is dropped unplayed only
      when as many callbacks in a row have ended above the target as the trim window is long; the
      target falls by one exactly at the end of a clean window, above its minimum, when every pull
      of the window left the slack for it. */
  lemma SettleMeans(p: Player, n: nat)
    requires Inv(p) && !(p.priming && |p.queue| < p.target) && n <= |Available(p)|
    ensures var q, r := Fill(p.(priming := false), n).0, Process(p, n).0;
            && (if |q.queue| <= p.target then r.queue == q.queue && r.overCount == 0
                else if p.overCount + 1 < TRIM_AFTER then r.queue == q.queue && r.overCount == p.overCount + 1
                else r.queue == q.queue[1..] && r.overCount == 0)
            && (if p.cleanCount + 1 < DECAY_AFTER then r.target == p.target && r.cleanCount == p.cleanCount + 1
                else
                  && r.cleanCount == 0 && r.slacks == []
                  && r.target == (if p.target > TARGET_MIN && (forall s :: s in q.slacks ==> s >= DECAY_SLACK)
                                  then p.target - 1 else p.target))
  {
    var start := p.(priming := false);
    FillPlays(start, n);
    FillInv(start, n);
  }

  /** An arriving packet is the last in the queue, and only a full queue loses its first for it. */
  lemma EnqueueMeans(p: Player, packet: Packet)
    ensures var all, r := p.queue + [packet], Enqueue(p, packet);
            && r == p.(queue := r.queue, enqueued := p.enqueued + [packet])
            && r.queue == if |all| > MAX_BUFFER_PACKETS then all[1..] else all
  {}

  // ---- Runs ----

  datatype Event = Arrives(packet: Packet) | Callback(n: nat)

  function Step(p: Player, e: Event): Player {
    match e
    case Arrives(packet) => Enqueue(p, packet)
    case Callback(n) => Process(p, n).0
  }

  function Run(events: seq<Event>): Player {
    if events == [] then START else Step(Run(events[..|events| - 1]), events[|events| - 1])
  }

  /** What the callbacks of a run put out, with the silence left out of each. */
  function Heard(events: seq<Event>): seq<real> {
    if events == [] then []
    else
      var n := |events| - 1;
      var p := Run(events[..n]);
      match events[n]
      case Arrives(_) => Heard(events[..n])
      case Callback(k) =>
        var r := Process(p, k);
        var heard := Min(k, |r.0.played| - |p.played|);
        Heard(events[..n]) + r.1[..if heard < 0 then 0 else heard]
  }

  function Arrived(events: seq<Event>): seq<Packet> {
    if events == [] then []
    else Arrived(events[..|events| - 1]) + if events[|events| - 1].Arrives? then [events[|events| - 1].packet] else []
  }

  lemma {:induction false} RunInv(events: seq<Event>)
    ensures Inv(Run(events)) && Run(events).enqueued == Arrived(events) && Run(events).played == Heard(events)
  {
    if events == [] {
    } else {
      var n := |events| - 1;
      RunInv(events[..n]);
      var p := Run(events[..n]);
      match events[n]
      case Arrives(packet) => EnqueueInv(p, packet);
      case Callback(k) =>
        ProcessInv(p, k);
        ProcessDelivers(p, k);
        var r := Process(p, k);
        assert r.0.played == p.played + r.0.played[|p.played|..];
        assert r.1[..|r.0.played| - |p.played|] == r.0.played[|p.played|..];
    }
  }

  /** `samples` is the packets at `taken` in order, the last one cut after `cut` samples. */
  ghost predicate CutFrom(samples: seq<real>, packets: seq<Packet>, taken: seq<int>, cut: nat) {
    && Rising(taken, |packets|)
    && if taken == [] then samples == []
       else
         var last := packets[taken[|taken| - 1]];
         cut <= |last| && samples == Concat(packets, taken[..|taken| - 1]) + last[..cut]
  }

  /** Over any run, what was heard is whole packets in the order they arrived, the last one perhaps
      not finished yet; every other packet is still queued or was dropped whole. */
  lemma HeardExactly(events: seq<Event>)
    ensures exists taken, cut :: CutFrom(Heard(events), Arrived(events), taken, cut)
  {
    RunInv(events);
    var p := Run(events);
    assert CutFrom(Heard(events), Arrived(events), p.taken, if p.current.None? then 0 else p.offset);
  }
}
