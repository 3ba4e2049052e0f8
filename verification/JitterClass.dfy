/** The audio worklet processor itself, its queue and counters updated in place. */
module JitterClass {
  import opened Options
  import opened Jitter

  class AudioPlayer {
    var queue: seq<Packet>
    var current: Option<Packet>
    var offset: nat
    var target: nat
    var priming: bool
    var overCount: nat
    var cleanCount: nat
    var slackMin: Option<nat>
    ghost var enqueued: seq<Packet>
    ghost var taken: seq<int>
    ghost var played: seq<real>
    ghost var slacks: seq<nat>

    ghost function State(): Player
      reads this
    {
      Player(queue, current, offset, target, priming, overCount, cleanCount, slackMin, enqueued, taken, played, slacks)
    }

    constructor ()
      ensures State() == START
    {
      queue, current, offset, target, priming := [], None, 0, TARGET_MIN, true;
      overCount, cleanCount, slackMin := 0, 0, None;
      enqueued, taken, played, slacks := [], [], [], [];
    }

    method Enqueue(packet: Packet)
      modifies this
      ensures State() == Jitter.Enqueue(old(State()), packet)
    {
      if |queue| >= MAX_BUFFER_PACKETS {
        queue := queue[1..];
      }
      queue := queue + [packet];
      enqueued := enqueued + [packet];
    }

    /** Take the next packet off the queue. */
    method Pull()
      requires queue != []
      modifies this
      ensures State() == Jitter.Pull(old(State()))
    {
      var slack := |queue| - 1;
      if slackMin.None? || slack < slackMin.value {
        slackMin := Some(slack);
      }
      taken, slacks := taken + [|enqueued| - |queue|], slacks + [slack];
      current := Some(queue[0]);
      queue := queue[1..];
      offset := 0;
    }

    /** Fill `out` from `i` on with silence and start over. */
    method Silence(out: array<real>, i: nat)
      requires i <= out.Length
      modifies out
      ensures out[..] == old(out[..i]) + Zeros(out.Length - i)
    {
      for k := i to out.Length
        invariant out[..k] == old(out[..i]) + Zeros(k - i)
      {
        out[k] := 0.0;
      }
    }

    /** Copy `k` samples of the current packet to `out` from `i` on. */
    method Copy(out: array<real>, i: nat, k: nat)
      requires current.Some? && offset + k <= |current.value| && i + k <= out.Length
      modifies out
      ensures out[..i + k] == old(out[..i]) + current.value[offset..offset + k]
    {
      for j := 0 to k
        invariant out[..i + j] == old(out[..i]) + current.value[offset..offset + j]
      {
        out[i + j] := current.value[offset + j];
        assert current.value[offset..offset + j + 1] == current.value[offset..offset + j] + [current.value[offset + j]];
      }
    }

    method Settle()
      modifies this
      ensures State() == Decay(Trim(old(State())))
    {
      if |queue| > target {
        overCount := overCount + 1;
        if overCount >= TRIM_AFTER {
          queue := queue[1..];
          overCount := 0;
        }
      } else {
        overCount := 0;
      }
      cleanCount := cleanCount + 1;
      if cleanCount >= DECAY_AFTER {
        cleanCount := 0;
        if target > TARGET_MIN && (slackMin.None? || slackMin.value >= DECAY_SLACK) {
          target := target - 1;
        }
        slackMin, slacks := None, [];
      }
    }

    /** Play what fits of the current packet into `out` from `i` on. */
    method Play(out: array<real>, i: nat, ghost start: Player) returns (k: nat)
      requires i < out.Length && current.Some? && offset <= |current.value|
      requires Continues(start, out.Length, State(), out[..i])
      modifies this, out
      ensures i + k <= out.Length && Continues(start, out.Length, State(), out[..i + k])
      ensures queue == old(queue) && priming == old(priming) && (k == 0 ==> old(offset) == |old(current).value|)
    {
      var n := out.Length;
      k := if n - i < |current.value| - offset then n - i else |current.value| - offset;
      ghost var p, done := State(), out[..i];
      ghost var chunk := current.value[offset..offset + k];
      Copy(out, i, k);
      played := played + chunk;
      offset := offset + k;
      if k == 0 {
        assert State() == p && out[..i] == done;
      } else {
        assert State() == Jitter.Copy(p, k);
        CopyContinues(start, n, p, done, k);
      }
    }

    /** The next packet, or silence to the end of `out` once there is none. */
    method Refill(out: array<real>, i: nat, ghost start: Player) returns (dry: bool)
      requires i < out.Length && Spent(State())
      requires Continues(start, out.Length, State(), out[..i])
      modifies this, out
      ensures dry ==> (State(), out[..]) == Fill(start, out.Length) && priming
      ensures !dry ==> Continues(start, out.Length, State(), out[..i]) && out[..] == old(out[..])
      ensures !dry ==>
                && old(queue) != [] && queue == old(queue)[1..]
                && current.Some? && offset == 0 && priming == old(priming)
    {
      if |queue| > 0 {
        Pull();
        return false;
      }
      Silence(out, i);
      priming := true;
      target := if target + 1 < TARGET_MAX then target + 1 else TARGET_MAX;
      overCount, cleanCount, slackMin, slacks := 0, 0, None, [];
      return true;
    }

    /** Fill `out`, running dry or not. */
    method FillOut(out: array<real>) returns (dry: bool)
      requires !priming
      modifies this, out
      ensures (State(), out[..]) == Fill(old(State()), out.Length) && dry == priming
    {
      ghost var start := State();
      var i := 0;
      assert Continues(start, out.Length, State(), out[..0]);
      while i < out.Length
        invariant i <= out.Length && !priming && Continues(start, out.Length, State(), out[..i])
        decreases out.Length - i, |queue|
      {
        if current.None? || offset >= |current.value| {
          dry := Refill(out, i, start);
          if dry {
            return;
          }
        }
        var k := Play(out, i, start);
        i := i + k;
      }
      assert out[..i] == out[..];
      AllFilled(start, State(), out[..]);
      return false;
    }

    method Process(out: array<real>)
      modifies this, out
      ensures (State(), out[..]) == Jitter.Process(old(State()), out.Length)
    {
      if priming {
        if |queue| < target {
          Silence(out, 0);
          assert out[..] == Zeros(out.Length);
          return;
        }
        priming := false;
      }
      var dry := FillOut(out);
      if !dry {
        Settle();
      }
    }
  }

  /** With `done` put out so far, filling `n` samples from `start` is to fill the rest from `p`. */
  ghost predicate Continues(start: Player, n: nat, p: Player, done: seq<real>) {
    && |done| <= n
    && Fill(start, n).0 == Fill(p, n - |done|).0
    && Fill(start, n).1 == done + Fill(p, n - |done|).1
  }

  lemma AllFilled(start: Player, p: Player, done: seq<real>)
    requires Continues(start, |done|, p, done)
    ensures Fill(start, |done|) == (p, done)
  {
    assert done + [] == done;
  }

  lemma CopyContinues(start: Player, n: nat, p: Player, done: seq<real>, k: nat)
    requires Continues(start, n, p, done) && |done| < n && !Spent(p)
    requires k == Min(n - |done|, |p.current.value| - p.offset)
    ensures Continues(start, n, Jitter.Copy(p, k), done + p.current.value[p.offset..p.offset + k])
  {
    var chunk := p.current.value[p.offset..p.offset + k];
    var rest := Fill(Jitter.Copy(p, k), n - |done| - k);
    assert Fill(p, n - |done|) == (rest.0, chunk + rest.1);
    assert done + (chunk + rest.1) == (done + chunk) + rest.1;
  }
}
