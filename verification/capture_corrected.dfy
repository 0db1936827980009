/**
 The capture engine with the buffer-full termination working as its
 completion branch intends: both handlers store while fewer than
 `capacity` samples are held, and the edge that stores the last one
 stops the watchdog and finishes the frame at once. Enable, disable,
 the timeout setter and the worker step are those of `Capture`.
 */
module CaptureCorrected {
  import opened Types
  import Capture

  /** The invariant of the corrected engine: a frame in progress always has a free cell. */
  predicate Inv(cfg: Capture.Config, e: Capture.Engine) {
    && Capture.FlagsAgree(e)
    && e.buf.Fits(cfg.capacity)
    && (e.state == Capture.Receiving ==> e.buf.length < cfg.capacity)
  }

  /** The watchdog handler, storing the trailing interval whenever a cell is free. */
  function OnTimeout(cfg: Capture.Config, e: Capture.Engine, now: u32): (r: Capture.Engine)
    requires cfg.Valid() && e.buf.Fits(cfg.capacity)
    ensures r.buf.Fits(cfg.capacity)
    ensures Inv(cfg, e) ==> Inv(cfg, r)
    ensures e.timer.Stopped? ==> r == e
    ensures Inv(cfg, e) && e.timer.Running? ==>
              && r.state == Capture.Finished && r.timer == Capture.Stopped
              && r.buf == e.buf.Append(Capture.Interval(cfg, now, e.prevTime))
  {
    if e.timer.Stopped? then e
    else
      var spent := e.(timer := Capture.Stopped);
      var flushed :=
        if e.buf.length < cfg.capacity then spent.(buf := e.buf.Append(Capture.Interval(cfg, now, e.prevTime)))
        else spent;
      Capture.Finish(flushed)
  }

  /** The edge handler, storing while a cell is free and finishing the frame when the last cell is filled. */
  function OnEdge(cfg: Capture.Config, e: Capture.Engine, level: int, now: u32): (r: Capture.Engine)
    requires cfg.Valid() && e.buf.Fits(cfg.capacity)
    ensures r.buf.Fits(cfg.capacity)
    ensures Inv(cfg, e) ==> Inv(cfg, r)
    ensures !e.recvEnabled || (level != 0 && level != 1) ==> r == e
    ensures e.recvEnabled && e.recvStarted && (level == 0 || level == 1) && level == e.prevVal ==>
              r == e.(timer := Capture.Running(e.timeoutMs))
    ensures Inv(cfg, e) && e.recvEnabled && e.recvStarted && (level == 0 || level == 1) && level != e.prevVal ==>
              && r.buf == e.buf.Append(Capture.Calibrate(cfg.adjust, e.prevVal, Capture.Interval(cfg, now, e.prevTime)))
              && r.prevVal == level && r.prevTime == now
  {
    if !e.recvEnabled then e
    else if level != 0 && level != 1 then e
    else if !e.recvStarted then
      if level == 1 then
        e.(prevVal := level, prevTime := now, recvStarted := true,
           buf := e.buf.(length := 0), state := Capture.Receiving, timer := Capture.Running(e.timeoutMs))
      else e
    else
      var alive := Capture.Rearm(e);
      if level == e.prevVal then alive
      else
        var stored :=
          if e.buf.length < cfg.capacity then
            var d := Capture.Calibrate(cfg.adjust, e.prevVal, Capture.Interval(cfg, now, e.prevTime));
            alive.(buf := e.buf.Append(d), prevTime := now, prevVal := level)
          else alive;
        if Capture.CompletionFires(cfg, stored) then Capture.Finish(stored.(timer := Capture.Stopped)) else stored
  }

  /** One event of the corrected engine. */
  function Step(cfg: Capture.Config, e: Capture.Engine, ev: Capture.Event): (r: Capture.Engine)
    requires cfg.Valid() && e.buf.Fits(cfg.capacity)
    ensures r.buf.Fits(cfg.capacity)
    ensures Inv(cfg, e) ==> Inv(cfg, r)
  {
    match ev
    case Edge(level, time) => OnEdge(cfg, e, level, time)
    case Expiry(time) => OnTimeout(cfg, e, time)
    case EnableCall => Capture.Enable(e)
    case DisableCall => Capture.Disable(e)
    case SetTimeoutCall(ms) => Capture.SetTimeout(e, ms)
    case PollCall => Capture.WorkerPoll(e).next
  }

  /** The corrected engine after a sequence of events. */
  function Run(cfg: Capture.Config, e: Capture.Engine, evs: seq<Capture.Event>): (r: Capture.Engine)
    requires cfg.Valid() && e.buf.Fits(cfg.capacity)
    ensures r.buf.Fits(cfg.capacity)
    ensures Inv(cfg, e) ==> Inv(cfg, r)
    decreases |evs|
  {
    if |evs| == 0 then e else Run(cfg, Step(cfg, e, evs[0]), evs[1..])
  }

  /**
   The intended buffer-full termination: the level change that fills the
   last cell is stored, the watchdog is stopped and the frame is finished
   without waiting for a timeout.
   */
  lemma FullBufferFinishes(cfg: Capture.Config, e: Capture.Engine, level: int, now: u32)
    requires cfg.Valid() && Inv(cfg, e) && e.state == Capture.Receiving
    requires e.buf.length == cfg.capacity - 1
    requires (level == 0 || level == 1) && level != e.prevVal
    ensures OnEdge(cfg, e, level, now).state == Capture.Finished
    ensures OnEdge(cfg, e, level, now).timer == Capture.Stopped
    ensures !OnEdge(cfg, e, level, now).recvEnabled
    ensures OnEdge(cfg, e, level, now).buf.length == cfg.capacity
    ensures OnEdge(cfg, e, level, now).buf.Samples()
            == e.buf.Samples() + [Capture.Calibrate(cfg.adjust, e.prevVal, Capture.Interval(cfg, now, e.prevTime))]
  {
  }

  /**
   From power-on, whatever happens, the corrected engine keeps its
   invariant: a frame in progress always has a free cell, and the buffer
   never holds more than `capacity` samples.
   */
  lemma FromPowerOn(cfg: Capture.Config, evs: seq<Capture.Event>)
    requires cfg.Valid()
    ensures Inv(cfg, Run(cfg, Capture.Init(cfg), evs))
    ensures Run(cfg, Capture.Init(cfg), evs).state == Capture.Receiving ==>
              Run(cfg, Capture.Init(cfg), evs).buf.length < cfg.capacity
  {
    assert Inv(cfg, Capture.Init(cfg));
  }

  /** Below the last cell the corrected edge handler agrees with the one as written. */
  lemma AgreesBelowCapacity(cfg: Capture.Config, e: Capture.Engine, level: int, now: u32)
    requires cfg.Valid() && Capture.Inv(cfg, e)
    requires e.buf.length < cfg.capacity - 1
    ensures OnEdge(cfg, e, level, now) == Capture.OnEdge(cfg, e, level, now)
  {
  }
}
