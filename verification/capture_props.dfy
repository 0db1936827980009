/**
 Properties of the capture engine over whole sequences of events:
 the length bound, the stickiness of Finished and Disabled, the
 samples a clean frame leaves in the buffer, and the dead completion
 branch of the edge handler.
 */
module CaptureProps {
  import opened Types
  import opened Capture

  /** Running two event sequences one after the other is running their concatenation. */
  lemma {:induction false} RunAppend(cfg: Config, e: Engine, a: seq<Event>, b: seq<Event>)
    requires cfg.Valid() && e.buf.Fits(cfg.capacity)
    ensures Run(cfg, e, a + b) == Run(cfg, Run(cfg, e, a), b)
    decreases |a|
  {
    if |a| == 0 {
      assert a + b == b;
    } else {
      assert (a + b)[1..] == a[1..] + b;
      RunAppend(cfg, Step(cfg, e, a[0]), a[1..], b);
    }
  }

  /** From power-on, whatever happens, the flags agree with the state and at most `capacity - 1` samples are held. */
  lemma CaptureLengthBound(cfg: Config, evs: seq<Event>)
    requires cfg.Valid()
    ensures Inv(cfg, Run(cfg, Init(cfg), evs))
    ensures Run(cfg, Init(cfg), evs).buf.length <= cfg.capacity - 1
    ensures !CompletionFires(cfg, Run(cfg, Init(cfg), evs))
  {
  }

  /** Edge, timer and timeout-setting events leave a Finished engine Finished with its buffer untouched. */
  lemma {:induction false} FinishedIsSticky(cfg: Config, e: Engine, evs: seq<Event>)
    requires cfg.Valid() && Inv(cfg, e) && e.state == Finished
    requires forall k :: 0 <= k < |evs| ==> evs[k].Edge? || evs[k].Expiry? || evs[k].SetTimeoutCall?
    ensures Run(cfg, e, evs).state == Finished
    ensures Run(cfg, e, evs).buf == e.buf
    decreases |evs|
  {
    if |evs| > 0 {
      var next := Step(cfg, e, evs[0]);
      assert next.state == Finished && next.buf == e.buf;
      FinishedIsSticky(cfg, next, evs[1..]);
    }
  }

  /**
   Once disabled, nothing but `ir_recv_enable` brings capture back: the
   engine stays Disabled with the watchdog stopped and the buffer untouched,
   whatever edges or expiries are still pending.
   */
  lemma {:induction false} DisabledIsInert(cfg: Config, e: Engine, evs: seq<Event>)
    requires cfg.Valid() && Inv(cfg, e) && e.state == Disabled
    requires forall k :: 0 <= k < |evs| ==> !evs[k].EnableCall?
    ensures Run(cfg, e, evs).state == Disabled
    ensures Run(cfg, e, evs).timer == Stopped
    ensures Run(cfg, e, evs).buf == e.buf
    decreases |evs|
  {
    if |evs| > 0 {
      var next := Step(cfg, e, evs[0]);
      assert next.state == Disabled && next.buf == e.buf;
      DisabledIsInert(cfg, next, evs[1..]);
    }
  }

  /** Disabling in the middle of a frame freezes the buffer against every later event short of re-enabling. */
  lemma DisableFreezesBuffer(cfg: Config, e: Engine, evs: seq<Event>)
    requires cfg.Valid() && Inv(cfg, e)
    requires forall k :: 0 <= k < |evs| ==> !evs[k].EnableCall?
    ensures Run(cfg, Disable(e), evs).buf == e.buf
    ensures !IsEnabled(Run(cfg, Disable(e), evs))
  {
    DisabledIsInert(cfg, Disable(e), evs);
  }

  /** `ir_recv_enable` is idempotent. */
  lemma EnableIdempotent(e: Engine)
    ensures Enable(Enable(e)) == Enable(e)
    ensures IsEnabled(Enable(e))
  {
  }

  /** `ir_recv_is_enabled` is true exactly when edges are acted on or a finished frame awaits the worker. */
  lemma IsEnabledMeaning(cfg: Config, e: Engine)
    requires Inv(cfg, e)
    ensures IsEnabled(e) <==> e.recvEnabled || e.state == Finished
  {
  }

  /**
   The edge handler as written never finishes a frame: with `capacity - 1`
   samples held, a genuine level change is dropped, the reference edge is
   kept and the watchdog restarted, so the frame can only end by timeout,
   and the timeout then stores no trailing sample either.
   */
  lemma FullBufferKeepsReceiving(cfg: Config, e: Engine, level: int, now: u32, later: u32)
    requires cfg.Valid() && Inv(cfg, e) && e.state == Receiving
    requires e.buf.length == cfg.capacity - 1
    requires (level == 0 || level == 1) && level != e.prevVal
    ensures OnEdge(cfg, e, level, now).state == Receiving
    ensures OnEdge(cfg, e, level, now).timer == Running(e.timeoutMs)
    ensures OnEdge(cfg, e, level, now).buf == e.buf
    ensures OnTimeout(cfg, OnEdge(cfg, e, level, now), later).buf == e.buf
    ensures OnTimeout(cfg, OnEdge(cfg, e, level, now), later).buf.length < cfg.capacity
  {
  }

  /** However many edges arrive, none of them ends a frame in the engine as written. */
  lemma {:induction false} EdgesNeverFinish(cfg: Config, e: Engine, evs: seq<Event>)
    requires cfg.Valid() && Inv(cfg, e) && e.state != Finished
    requires forall k :: 0 <= k < |evs| ==> evs[k].Edge?
    ensures Run(cfg, e, evs).state != Finished
    decreases |evs|
  {
    if |evs| > 0 {
      EdgesNeverFinish(cfg, Step(cfg, e, evs[0]), evs[1..]);
    }
  }

  /** The levels of a clean frame: high first, then alternating. */
  predicate CleanFrame(evs: seq<Event>) {
    forall k :: 0 <= k < |evs| ==> evs[k].Edge? && evs[k].level == (if k % 2 == 0 then 1 else 0)
  }

  /** The samples a clean frame should leave: each interval between consecutive edges, calibrated by the level it measured. */
  function FrameSamples(cfg: Config, evs: seq<Event>): (s: seq<u32>)
    requires cfg.Valid() && |evs| >= 1 && CleanFrame(evs)
    ensures |s| == |evs| - 1
  {
    seq(|evs| - 1, k requires 0 <= k < |evs| - 1 =>
      Calibrate(cfg.adjust, evs[k].level, Interval(cfg, evs[k + 1].time, evs[k].time)))
  }

  /** Dropping the last edge of a clean frame drops its last sample. */
  lemma FrameSamplesSnoc(cfg: Config, evs: seq<Event>)
    requires cfg.Valid() && |evs| >= 2 && CleanFrame(evs)
    ensures CleanFrame(evs[..|evs| - 1])
    ensures FrameSamples(cfg, evs) == FrameSamples(cfg, evs[..|evs| - 1])
              + [Calibrate(cfg.adjust, evs[|evs| - 2].level, Interval(cfg, evs[|evs| - 1].time, evs[|evs| - 2].time))]
  {
    var front := evs[..|evs| - 1];
    assert CleanFrame(front) by {
      forall k | 0 <= k < |front| ensures front[k].Edge? && front[k].level == (if k % 2 == 0 then 1 else 0) {
        assert front[k] == evs[k];
      }
    }
  }

  /** The last two edges of a clean frame carry opposite levels. */
  lemma CleanFrameAlternates(evs: seq<Event>)
    requires |evs| >= 2 && CleanFrame(evs)
    ensures evs[|evs| - 2].level == 0 || evs[|evs| - 2].level == 1
    ensures evs[|evs| - 1].level == 1 - evs[|evs| - 2].level
  {
    var n := |evs|;
    assert evs[n - 1].level == (if (n - 1) % 2 == 0 then 1 else 0);
    assert evs[n - 2].level == (if (n - 2) % 2 == 0 then 1 else 0);
  }

  /**
   Engine `r` holds clean frame `evs` as a frame in progress, captured from
   engine `e`: exactly the frame's calibrated intervals are stored, the
   last edge is the reference for the next interval, and the watchdog
   runs with `e`'s timeout.
   */
  predicate Captured(cfg: Config, e: Engine, evs: seq<Event>, r: Engine)
    requires cfg.Valid() && |evs| >= 1 && CleanFrame(evs)
  {
    && Inv(cfg, r)
    && r.state == Receiving
    && r.buf.Samples() == FrameSamples(cfg, evs)
    && r.prevTime == evs[|evs| - 1].time
    && r.prevVal == evs[|evs| - 1].level
    && r.timer == Running(e.timeoutMs)
    && r.timeoutMs == e.timeoutMs
  }

  /** The first edge of a clean frame starts it with an empty buffer. */
  lemma FrameStart(cfg: Config, e: Engine, evs: seq<Event>)
    requires cfg.Valid() && Inv(cfg, e) && e.state == Enabled
    requires |evs| == 1 && CleanFrame(evs)
    ensures Captured(cfg, e, evs, Run(cfg, e, evs))
  {
    RunOne(cfg, e, evs[0]);
    assert evs == [evs[0]];
  }

  /** A later edge of a clean frame, with room left, appends its calibrated interval. */
  lemma FrameContinue(cfg: Config, mid: Engine, prev: Event, ev: Event)
    requires cfg.Valid() && Inv(cfg, mid) && mid.state == Receiving
    requires mid.buf.length < cfg.capacity - 1
    requires prev.Edge? && ev.Edge? && mid.prevVal == prev.level && mid.prevTime == prev.time
    requires (prev.level == 0 || prev.level == 1) && ev.level == 1 - prev.level
    ensures Step(cfg, mid, ev).state == Receiving
    ensures Step(cfg, mid, ev).buf.Samples()
            == mid.buf.Samples() + [Calibrate(cfg.adjust, prev.level, Interval(cfg, ev.time, prev.time))]
    ensures Step(cfg, mid, ev).prevTime == ev.time && Step(cfg, mid, ev).prevVal == ev.level
    ensures Step(cfg, mid, ev).timer == Running(mid.timeoutMs) && Step(cfg, mid, ev).timeoutMs == mid.timeoutMs
  {
  }

  /** An engine holding all but the last edge of a clean frame, stepped by that edge, holds the whole frame. */
  lemma FrameExtend(cfg: Config, e: Engine, evs: seq<Event>, mid: Engine)
    requires cfg.Valid() && 2 <= |evs| <= cfg.capacity && CleanFrame(evs)
    requires CleanFrame(evs[..|evs| - 1]) && Captured(cfg, e, evs[..|evs| - 1], mid)
    ensures Captured(cfg, e, evs, Step(cfg, mid, evs[|evs| - 1]))
  {
    var n := |evs|;
    FrameSamplesSnoc(cfg, evs);
    assert evs[..n - 1][n - 2] == evs[n - 2];
    CleanFrameAlternates(evs);
    FrameContinue(cfg, mid, evs[n - 2], evs[n - 1]);
  }

  /**
   A clean frame of at most `capacity` edges, arriving while capture is
   enabled, leaves exactly its calibrated intervals in the buffer: the
   leading edge resets the buffer and every later edge appends one sample.
   */
  lemma {:induction false} FrameCapture(cfg: Config, e: Engine, evs: seq<Event>)
    requires cfg.Valid() && Inv(cfg, e) && e.state == Enabled
    requires 1 <= |evs| <= cfg.capacity && CleanFrame(evs)
    ensures Captured(cfg, e, evs, Run(cfg, e, evs))
    decreases |evs|
  {
    var n := |evs|;
    if n == 1 {
      FrameStart(cfg, e, evs);
    } else {
      FrameSamplesSnoc(cfg, evs);
      FrameCapture(cfg, e, evs[..n - 1]);
      RunSnoc(cfg, e, evs);
      FrameExtend(cfg, e, evs, Run(cfg, e, evs[..n - 1]));
    }
  }

  /** The engine after a non-empty sequence of events is one step past the engine after all but the last. */
  lemma RunSnoc(cfg: Config, e: Engine, evs: seq<Event>)
    requires cfg.Valid() && e.buf.Fits(cfg.capacity) && |evs| > 0
    ensures Run(cfg, e, evs) == Step(cfg, Run(cfg, e, evs[..|evs| - 1]), evs[|evs| - 1])
  {
    var front, last := evs[..|evs| - 1], evs[|evs| - 1];
    SplitLast(evs);
    RunAppend(cfg, e, front, [last]);
    RunOne(cfg, Run(cfg, e, front), last);
  }

  /** A non-empty sequence is its front followed by its last element. */
  lemma SplitLast(evs: seq<Event>)
    requires |evs| > 0
    ensures evs == evs[..|evs| - 1] + [evs[|evs| - 1]]
  {
  }

  /** Running a single event is taking one step. */
  lemma RunOne(cfg: Config, e: Engine, ev: Event)
    requires cfg.Valid() && e.buf.Fits(cfg.capacity)
    ensures Run(cfg, e, [ev]) == Step(cfg, e, ev)
  {
    assert [ev][1..] == [];
  }

  /**
   The watchdog closes a clean frame: on expiry the frame is Finished, and
   when room remains the trailing interval is appended without any bias.
   */
  lemma FrameThenSilence(cfg: Config, e: Engine, evs: seq<Event>, now: u32)
    requires cfg.Valid() && Inv(cfg, e) && e.state == Enabled
    requires 1 <= |evs| < cfg.capacity && CleanFrame(evs)
    ensures OnTimeout(cfg, Run(cfg, e, evs), now).state == Finished
    ensures OnTimeout(cfg, Run(cfg, e, evs), now).buf.Samples()
            == FrameSamples(cfg, evs) + [Interval(cfg, now, evs[|evs| - 1].time)]
  {
    FrameCapture(cfg, e, evs);
  }
}
