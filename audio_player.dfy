/**
 * `AudioPlayer` of voice-agent-websocket/player.py: a playback queue of at
 * most 64 slots that drops its oldest chunk when full, mute and unmute
 * flags, a guarded start, a stop that posts an end-of-stream sentinel, and
 * the playback loop. The audio device is modelled by the trace of calls the
 * player makes on it; the playback thread is modelled by running its loop
 * body in sequence with the other operations.
 */
module AudioPlayer {

  newtype Byte = x: int | 0 <= x < 256

  type Bytes = seq<Byte>

  /** A queue slot: a chunk of audio, or the `None` that `stop` posts. */
  datatype Slot = Chunk(data: Bytes) | Sentinel

  /** A call the player makes on its audio device. */
  datatype AudioCall = StartOutput | WriteOutput(data: Bytes) | StopOutput

  const MaxSize: nat := 64

  /** The queue after an `enqueue`: appended when there is room, else the oldest slot leaves first. */
  /** The new slot always ends the queue, and a queue within the bound stays within it. */
  function Enqueued(q: seq<Slot>, s: Slot): (r: seq<Slot>)
    ensures |r| > 0 && r[|r| - 1] == s
    ensures |q| <= MaxSize ==> |r| <= MaxSize
  {
    if |q| < MaxSize then q + [s] else q[1..] + [s]
  }

  /** With room, the slot is appended and nothing else changes. */
  lemma EnqueuedWithRoom(q: seq<Slot>, s: Slot)
    requires |q| < MaxSize
    ensures Enqueued(q, s)[..|q|] == q && |Enqueued(q, s)| == |q| + 1
  {
  }

  /** When full, exactly the oldest slot leaves: the length stays 64 and the rest shift by one. */
  lemma EnqueuedWhenFull(q: seq<Slot>, s: Slot)
    requires |q| == MaxSize
    ensures |Enqueued(q, s)| == MaxSize
    ensures Enqueued(q, s)[..MaxSize - 1] == q[1..]
    ensures Enqueued(q, s)[MaxSize - 1] == s
  {
  }

  /** A run of enqueues. */
  function EnqueueAll(q: seq<Slot>, xs: seq<Slot>): seq<Slot>
    decreases |xs|
  {
    if |xs| == 0 then q else EnqueueAll(Enqueued(q, xs[0]), xs[1..])
  }

  /** The last `n` slots of `s` (all of them when there are fewer). */
  function LastN(s: seq<Slot>, n: nat): (r: seq<Slot>)
  {
    if |s| <= n then s else s[|s| - n..]
  }

  /** Within the bound, an enqueue keeps the last 64 slots of the queue and the new one. */
  lemma EnqueuedIsLastN(q: seq<Slot>, s: Slot)
    requires |q| <= MaxSize
    ensures Enqueued(q, s) == LastN(q + [s], MaxSize)
  {
    if |q| == MaxSize {
      assert (q + [s])[1..] == q[1..] + [s];
    }
  }

  /** Taking the last `n` before appending more changes nothing once the last `n` are taken again. */
  lemma LastNAbsorb(s: seq<Slot>, t: seq<Slot>, n: nat)
    ensures LastN(LastN(s, n) + t, n) == LastN(s + t, n)
  {
    if |s| > n {
      var u := s + t;
      var v := s[|s| - n..] + t;
      assert v == u[|s| - n..];
      assert |v| - n == |t| && |u| - n == |s| + |t| - n;
      assert v[|t|..] == u[|s| + |t| - n..];
    }
  }

  /**
   * Whatever is enqueued, the queue holds the most recent 64 slots of the
   * old queue followed by the new ones, oldest first.
   */
  lemma {:induction false} EnqueueAllWindow(q: seq<Slot>, xs: seq<Slot>)
    requires |q| <= MaxSize
    ensures EnqueueAll(q, xs) == LastN(q + xs, MaxSize)
    decreases |xs|
  {
    if |xs| > 0 {
      var x, rest := xs[0], xs[1..];
      var q1 := Enqueued(q, x);
      calc {
        EnqueueAll(q, xs);
        EnqueueAll(q1, rest);
        { EnqueueAllWindow(q1, rest); }
        LastN(q1 + rest, MaxSize);
        { EnqueuedIsLastN(q, x); }
        LastN(LastN(q + [x], MaxSize) + rest, MaxSize);
        { LastNAbsorb(q + [x], rest, MaxSize); }
        LastN((q + [x]) + rest, MaxSize);
        { assert (q + [x]) + rest == q + xs; }
        LastN(q + xs, MaxSize);
      }
    }
  }

  /** The device calls the loop makes for the slots before the first sentinel. */
  function Playback(q: seq<Slot>, muted: bool): seq<AudioCall>
  {
    if |q| == 0 || q[0].Sentinel? then []
    else (if muted then [] else [StartOutput, WriteOutput(q[0].data)]) + Playback(q[1..], muted)
  }

  /** The slots the loop leaves: those after the first sentinel, or none. */
  function AfterSentinel(q: seq<Slot>): seq<Slot>
  {
    if |q| == 0 then [] else if q[0].Sentinel? then q[1..] else AfterSentinel(q[1..])
  }

  /** The loop makes a start and a write per chunk at most, and never stops the device itself. */
  lemma {:induction false} PlaybackShape(q: seq<Slot>, muted: bool)
    ensures |Playback(q, muted)| % 2 == 0 && |Playback(q, muted)| <= 2 * |q|
    ensures StopOutput !in Playback(q, muted)
  {
    if |q| > 0 && q[0].Chunk? {
      PlaybackShape(q[1..], muted);
    }
  }

  /**
   * What the loop leaves is a tail of the queue: shorter than the queue when
   * it holds a sentinel, empty when it holds none.
   */
  lemma {:induction false} AfterSentinelTail(q: seq<Slot>)
    ensures |AfterSentinel(q)| <= |q| && AfterSentinel(q) == q[|q| - |AfterSentinel(q)|..]
    ensures Sentinel in q ==> |AfterSentinel(q)| < |q|
    ensures Sentinel !in q ==> AfterSentinel(q) == []
  {
    if |q| > 0 && q[0].Chunk? {
      AfterSentinelTail(q[1..]);
      assert Sentinel in q ==> Sentinel in q[1..];
    }
  }

  /** Muted playback writes nothing. */
  lemma {:induction false} PlaybackMuted(q: seq<Slot>)
    ensures Playback(q, true) == []
  {
    if |q| > 0 && q[0].Chunk? {
      PlaybackMuted(q[1..]);
    }
  }

  /** Unmuted playback writes every chunk before the first sentinel, in order, each after a start. */
  lemma {:induction false} PlaybackWrites(q: seq<Slot>, k: nat)
    requires k < |q| && forall j :: 0 <= j <= k ==> q[j].Chunk?
    ensures |Playback(q, false)| >= 2 * (k + 1)
    ensures Playback(q, false)[2 * k] == StartOutput
    ensures Playback(q, false)[2 * k + 1] == WriteOutput(q[k].data)
  {
    if k > 0 {
      PlaybackWrites(q[1..], k - 1);
    }
  }

  class AudioPlayer {
    var q: seq<Slot>
    var running: bool
    var muted: bool
    var hasThread: bool
    var threadsStarted: nat
    var io: seq<AudioCall>

    predicate Valid()
      reads this
    {
      |q| <= MaxSize && (running ==> hasThread)
    }

    constructor()
      ensures Valid()
      ensures q == [] && !running && !muted && !hasThread && threadsStarted == 0 && io == []
    {
      q := [];
      running := false;
      muted := false;
      hasThread := false;
      threadsStarted := 0;
      io := [];
    }

    /** `start`: a second call while running starts no second thread. */
    method Start()
      requires Valid()
      modifies this
      ensures Valid() && running && hasThread
      ensures threadsStarted == old(threadsStarted) + (if old(running) then 0 else 1)
      ensures q == old(q) && muted == old(muted) && io == old(io)
      ensures old(running) ==> hasThread == old(hasThread)
    {
      if running {
        return;
      }
      running := true;
      hasThread := true;
      threadsStarted := threadsStarted + 1;
    }

    /** `enqueue`: `put_nowait`, or on a full queue `get_nowait` then `put_nowait`. */
    method Enqueue(b: Bytes)
      requires Valid()
      modifies this
      ensures Valid()
      ensures q == Enqueued(old(q), Chunk(b))
      ensures running == old(running) && muted == old(muted) && io == old(io)
      ensures hasThread == old(hasThread) && threadsStarted == old(threadsStarted)
    {
      if |q| < MaxSize {
        q := q + [Chunk(b)];
      } else {
        q := q[1..];
        q := q + [Chunk(b)];
      }
    }

    /** `clear`: `get_nowait` until the queue is empty. */
    method Clear()
      requires Valid()
      modifies this
      ensures Valid() && q == []
      ensures running == old(running) && muted == old(muted) && io == old(io)
      ensures hasThread == old(hasThread) && threadsStarted == old(threadsStarted)
    {
      while |q| > 0
        invariant Valid()
        invariant running == old(running) && muted == old(muted) && io == old(io)
        invariant hasThread == old(hasThread) && threadsStarted == old(threadsStarted)
        decreases |q|
      {
        q := q[1..];
      }
    }

    method Mute()
      requires Valid()
      modifies this
      ensures Valid() && muted
      ensures q == old(q) && running == old(running) && io == old(io)
      ensures hasThread == old(hasThread) && threadsStarted == old(threadsStarted)
    {
      muted := true;
    }

    method Unmute()
      requires Valid()
      modifies this
      ensures Valid() && !muted
      ensures q == old(q) && running == old(running) && io == old(io)
      ensures hasThread == old(hasThread) && threadsStarted == old(threadsStarted)
    {
      muted := false;
    }

    /**
     * `stop`: the loop is told to end, the sentinel is posted when the queue
     * has room (a full queue drops it silently), and the device is stopped.
     */
    method Stop()
      requires Valid()
      modifies this
      ensures Valid() && !running
      ensures q == (if |old(q)| < MaxSize then old(q) + [Sentinel] else old(q))
      ensures io == old(io) + [StopOutput]
      ensures muted == old(muted) && hasThread == old(hasThread) && threadsStarted == old(threadsStarted)
    {
      running := false;
      if |q| < MaxSize {
        q := q + [Sentinel];
      }
      io := io + [StopOutput];
    }

    /**
     * One pass of `_loop`: `done` when the loop leaves (not running, or the
     * sentinel was taken). An empty queue is a timed-out `get`; a muted
     * player takes a chunk and drops it.
     */
    method Step() returns (done: bool)
      requires Valid()
      modifies this
      ensures Valid()
      ensures running == old(running) && muted == old(muted)
      ensures hasThread == old(hasThread) && threadsStarted == old(threadsStarted)
      ensures !old(running) ==> done && q == old(q) && io == old(io)
      ensures old(running) && |old(q)| == 0 ==> !done && q == old(q) && io == old(io)
      ensures old(running) && |old(q)| > 0 ==> q == old(q)[1..] && (done <==> old(q)[0].Sentinel?)
      ensures old(running) && |old(q)| > 0 ==>
        io == old(io) + (if old(q)[0].Sentinel? || muted then [] else [StartOutput, WriteOutput(old(q)[0].data)])
    {
      if !running {
        return true;
      }
      if |q| == 0 {
        return false;
      }
      var item := q[0];
      q := q[1..];
      if item.Sentinel? {
        return true;
      }
      if muted {
        return false;
      }
      io := io + [StartOutput];
      io := io + [WriteOutput(item.data)];
      return false;
    }

    /**
     * `_loop` run on the slots already queued, with nothing enqueued
     * meanwhile: it plays every chunk up to the first sentinel and stops
     * there, or stops at an empty queue (where the thread would wait).
     */
    method Drain()
      requires Valid()
      modifies this
      ensures Valid()
      ensures running == old(running) && muted == old(muted)
      ensures hasThread == old(hasThread) && threadsStarted == old(threadsStarted)
      ensures !old(running) ==> q == old(q) && io == old(io)
      ensures old(running) ==> q == AfterSentinel(old(q)) && io == old(io) + Playback(old(q), muted)
    {
      if !running {
        return;
      }
      var done := false;
      while !done && |q| > 0
        invariant Valid() && running
        invariant muted == old(muted)
        invariant hasThread == old(hasThread) && threadsStarted == old(threadsStarted)
        invariant done ==> q == AfterSentinel(old(q)) && io == old(io) + Playback(old(q), muted)
        invariant !done ==> AfterSentinel(q) == AfterSentinel(old(q))
        invariant !done ==> io + Playback(q, muted) == old(io) + Playback(old(q), muted)
        decreases |q|, if done then 0 else 1
      {
        ghost var q0 := q;
        ghost var io0 := io;
        done := Step();
        if q0[0].Sentinel? {
          assert io + Playback(q0, muted) == io;
        } else {
          assert Playback(q0, muted)
            == (if muted then [] else [StartOutput, WriteOutput(q0[0].data)]) + Playback(q, muted);
          assert io0 + Playback(q0, muted) == io + Playback(q, muted);
        }
      }
      if !done {
        assert Playback(q, muted) == [];
      }
    }
  }
}
