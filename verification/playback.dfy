/**
  The frame scheduling of `loopBody`, `canPlayCurrentFrame` and the tail of `setupNewFrame`:
  which source frame is held, when the playback epoch restarts, and when the held frame is played.
  Time is in integer microseconds; "now" is a parameter.
*/
module Playback {
  import opened Wrappers
  import opened PointCloud

  /** `std::numeric_limits<int>::max()`, the initial `lastPlayedFrame`. */
  const IntMax: int := 0x7fff_ffff

  /** A decoded source frame: sequence number, capture timestamp and depth image. */
  datatype Frame = Frame(frameNumber: int, dTimestamp: int, depth: DepthImage)

  /**
    The player's scheduling fields. `liveGateUsed` models the function-local `static bool once` of
    `canPlayCurrentFrame`. Here it is kept per player, while the source's static is shared by the
    whole process; the two agree when the process creates one player.
  */
  datatype Schedule = Schedule(
    lastPlayedFrame: int,
    firstFrameTimestamp: int,
    playbackStarted: int,
    currentFrame: Option<Frame>,
    liveGateUsed: bool)

  /** The field initialisers: no frame played yet (`INT_MAX`), zero epoch, nothing held, gate unused. */
  function InitialSchedule(): (s: Schedule)
    ensures s.currentFrame.None? && !s.liveGateUsed
    ensures s.lastPlayedFrame == IntMax
  {
    Schedule(IntMax, 0, 0, None, false)
  }

  /**
    The first half of `loopBody`: pop from the queue only when no frame is held (`popped` is what
    the bounded-wait pop produced), then restart the epoch at `now` if the held frame's number
    is below the last played one.
  */
  function Receive(s: Schedule, popped: Option<Frame>, now: int): (r: Schedule)
    ensures s.currentFrame.Some? ==> r.currentFrame == s.currentFrame
    ensures s.currentFrame.None? ==> r.currentFrame == popped
    ensures r.lastPlayedFrame == s.lastPlayedFrame && r.liveGateUsed == s.liveGateUsed
    ensures r.currentFrame.Some? && r.currentFrame.value.frameNumber < s.lastPlayedFrame ==>
      r.playbackStarted == now && r.firstFrameTimestamp == r.currentFrame.value.dTimestamp
    ensures !(r.currentFrame.Some? && r.currentFrame.value.frameNumber < s.lastPlayedFrame) ==>
      r.playbackStarted == s.playbackStarted && r.firstFrameTimestamp == s.firstFrameTimestamp
  {
    var held := if s.currentFrame.None? then popped else s.currentFrame;
    match held
    case None => s
    case Some(f) =>
      if f.frameNumber < s.lastPlayedFrame
      then s.(currentFrame := held, playbackStarted := now, firstFrameTimestamp := f.dTimestamp)
      else s.(currentFrame := held)
  }

  /**
    `canPlayCurrentFrame` as it executes: false without a held frame; otherwise true on the first
    call with a frame held and false on every later one. Returns the decision and the state with
    the gate flag updated.
  */
  function LiveGate(s: Schedule): (r: (bool, Schedule))
    ensures r.0 <==> s.currentFrame.Some? && !s.liveGateUsed
    ensures r.1 == if r.0 then s.(liveGateUsed := true) else s
  {
    if s.currentFrame.None? then (false, s)
    else if !s.liveGateUsed then (true, s.(liveGateUsed := true))
    else (false, s)
  }

  /**
    The pacing test after the gate (`passedTimeUs >= targetPlaybackTimeUs`). The `return` statements
    of the gate make it unreachable in the source; it is kept here as a separate predicate.
  */
  predicate PacingDue(s: Schedule, now: int)
    requires s.currentFrame.Some?
  {
    now - s.playbackStarted >= s.currentFrame.value.dTimestamp - s.firstFrameTimestamp
  }

  /** Tail of `setupNewFrame`: remember the frame number, hand the frame on, drop it from `currentFrame`. */
  function Play(s: Schedule): (r: (Schedule, Frame))
    requires s.currentFrame.Some?
    ensures r.1 == s.currentFrame.value
    ensures r.0.currentFrame.None? && r.0.lastPlayedFrame == r.1.frameNumber
    ensures r.0.firstFrameTimestamp == s.firstFrameTimestamp && r.0.playbackStarted == s.playbackStarted
    ensures r.0.liveGateUsed == s.liveGateUsed
  {
    var f := s.currentFrame.value;
    (s.(lastPlayedFrame := f.frameNumber, currentFrame := None), f)
  }

  /** One scheduling step of `loopBody`: receive, ask the gate, and play if it opens. */
  function Step(s: Schedule, popped: Option<Frame>, now: int): (r: (Schedule, Option<Frame>))
    ensures r.1.Some? ==> !s.liveGateUsed && r.0.liveGateUsed
    ensures r.1.Some? ==> r.0.currentFrame.None? && r.0.lastPlayedFrame == r.1.value.frameNumber
    ensures r.1.Some? ==> r.1 == (if s.currentFrame.Some? then s.currentFrame else popped)
    ensures r.1.None? ==> r.0.lastPlayedFrame == s.lastPlayedFrame
    ensures r.1.None? ==> r.0.currentFrame == (if s.currentFrame.Some? then s.currentFrame else popped)
    ensures r.1.Some? <==> !s.liveGateUsed && (s.currentFrame.Some? || popped.Some?)
    ensures r.1.None? ==> r.0.liveGateUsed == s.liveGateUsed
    ensures var held := if s.currentFrame.Some? then s.currentFrame else popped;
      if held.Some? && held.value.frameNumber < s.lastPlayedFrame
      then r.0.playbackStarted == now && r.0.firstFrameTimestamp == held.value.dTimestamp
      else r.0.playbackStarted == s.playbackStarted && r.0.firstFrameTimestamp == s.firstFrameTimestamp
  {
    var received := Receive(s, popped, now);
    var (open, gated) := LiveGate(received);
    if open then
      var (played, f) := Play(gated);
      (played, Some(f))
    else (gated, None)
  }

  /** While a frame is held the queue is not consulted: the popped value has no influence. */
  lemma HeldFrameBlocksPop(s: Schedule, p1: Option<Frame>, p2: Option<Frame>, now: int)
    requires s.currentFrame.Some?
    ensures Step(s, p1, now) == Step(s, p2, now)
  {
  }

  /** A run of steps, one per loop iteration, with what the queue produced and the clock read. */
  function Run(s: Schedule, pops: seq<Option<Frame>>, nows: seq<int>): (r: (Schedule, seq<Frame>))
    requires |pops| == |nows|
    decreases |pops|
  {
    if |pops| == 0 then (s, [])
    else
      var (s1, played) := Step(s, pops[0], nows[0]);
      var (sn, rest) := Run(s1, pops[1..], nows[1..]);
      (sn, (if played.Some? then [played.value] else []) + rest)
  }

  /** After the gate has opened once, no further frame is ever played. */
  lemma {:induction false} NothingPlaysAfterGate(s: Schedule, pops: seq<Option<Frame>>, nows: seq<int>)
    requires |pops| == |nows| && s.liveGateUsed
    ensures Run(s, pops, nows).1 == []
    ensures Run(s, pops, nows).0.liveGateUsed
    decreases |pops|
  {
    if |pops| > 0 {
      NothingPlaysAfterGate(Step(s, pops[0], nows[0]).0, pops[1..], nows[1..]);
    }
  }

  /** Over any run, at most one frame is played in the life of a player. */
  lemma {:induction false} AtMostOneFramePlayed(s: Schedule, pops: seq<Option<Frame>>, nows: seq<int>)
    requires |pops| == |nows|
    ensures |Run(s, pops, nows).1| <= 1
    ensures s.liveGateUsed ==> Run(s, pops, nows).1 == []
    decreases |pops|
  {
    if |pops| > 0 {
      var (s1, played) := Step(s, pops[0], nows[0]);
      if played.Some? {
        NothingPlaysAfterGate(s1, pops[1..], nows[1..]);
      } else {
        AtMostOneFramePlayed(s1, pops[1..], nows[1..]);
        if s.liveGateUsed {
          assert s1.liveGateUsed;
        }
      }
    }
  }

  /** Once the gate is used, a held frame stays held for every later step and nothing more is popped. */
  lemma {:induction false} HeldFrameStaysHeld(s: Schedule, pops: seq<Option<Frame>>, nows: seq<int>)
    requires |pops| == |nows| && s.liveGateUsed && s.currentFrame.Some?
    ensures Run(s, pops, nows).0.currentFrame == s.currentFrame
    decreases |pops|
  {
    if |pops| > 0 {
      HeldFrameStaysHeld(Step(s, pops[0], nows[0]).0, pops[1..], nows[1..]);
    }
  }

  /** From start-up, the first frame the queue yields is played at once and opens a new epoch. */
  lemma FirstFramePlaysImmediately(f: Frame, now: int)
    requires f.frameNumber < IntMax
    ensures Step(InitialSchedule(), Some(f), now).1 == Some(f)
    ensures Step(InitialSchedule(), Some(f), now).0.firstFrameTimestamp == f.dTimestamp
    ensures Step(InitialSchedule(), Some(f), now).0.playbackStarted == now
  {
  }

  /** Pacing is monotone in wall-clock time: a frame that is due stays due. */
  lemma PacingMonotoneInTime(s: Schedule, now: int, later: int)
    requires s.currentFrame.Some? && now <= later && PacingDue(s, now)
    ensures PacingDue(s, later)
  {
  }

  /** Within one epoch a frame with a later timestamp is never due before one with an earlier timestamp. */
  lemma PacingRespectsTimestampOrder(s: Schedule, f: Frame, g: Frame, now: int)
    requires f.dTimestamp <= g.dTimestamp
    requires PacingDue(s.(currentFrame := Some(g)), now)
    ensures PacingDue(s.(currentFrame := Some(f)), now)
  {
  }

  /** The frame that opened an epoch is due at the very moment of the reset. */
  lemma EpochFrameDueAtReset(s: Schedule, f: Frame, now: int)
    requires f.frameNumber < s.lastPlayedFrame && s.currentFrame.None?
    ensures PacingDue(Receive(s, Some(f), now), now)
  {
  }
}
