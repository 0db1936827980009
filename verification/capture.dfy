/**
 The capture engine of app/src/ir_recv.c: an edge-driven state machine
 that turns the timestamps of a sensor pin's transitions into calibrated
 durations in a bounded buffer, a one-shot watchdog that ends a frame
 after a silence, and the thread-side enable/disable/poll operations.

 Every handler is one atomic step on an immutable `Engine` record. The
 cycle counter, the pin level and the clock rate are parameters of the
 steps; the NEC decoder is not part of this model (the worker step only
 reports which buffer it hands over).
 */
module Capture {
  import opened Types

  /** `state_t`. */
  datatype State = Disabled | Enabled | Receiving | Finished

  /** The watchdog `tout_timer`: stopped, or counting down the period it was (re)started with. */
  datatype Timer = Stopped | Running(periodMs: u32)

  /**
   Build-time and platform constants: `CONFIG_IR_BUF_SIZE`, the pair
   `CONFIG_ADJUST_RECEIVE_PULSE`/`CONFIG_ADJUST_RECEIVE_SPACE`, and the
   cycles per microsecond `sys_clock_hw_cycles_per_sec() / 1000000`.
   */
  datatype Config = Config(capacity: nat, adjust: TimAdj, usDiv: u32)
  {
    predicate Valid() {
      capacity >= 1 && usDiv > 0
    }
  }

  /** The module's statics: the state, its two flags, the last accepted edge, the timeout, the timer and the buffer. */
  datatype Engine = Engine(
    state: State,
    recvEnabled: bool,
    recvStarted: bool,
    prevVal: int,
    prevTime: u32,
    timeoutMs: u32,
    timer: Timer,
    buf: IrBuf)

  /** The initial value of `recv_timeout_ms`. */
  const DEFAULT_TIMEOUT_MS: u32 := 10

  /** The redundant flags agree with the state, and the watchdog runs exactly while a frame is received. */
  predicate FlagsAgree(e: Engine) {
    && (e.recvEnabled <==> e.state == Enabled || e.state == Receiving)
    && (e.timer.Running? <==> e.state == Receiving)
    && (e.state == Enabled ==> !e.recvStarted)
    && (e.state == Receiving ==> e.recvStarted && (e.prevVal == 0 || e.prevVal == 1))
  }

  /** The invariant of the engine as written: flags agree and at most `capacity - 1` samples are ever held. */
  predicate Inv(cfg: Config, e: Engine) {
    FlagsAgree(e) && e.buf.Fits(cfg.capacity) && e.buf.length <= cfg.capacity - 1
  }

  /** Power-on values of the statics, with the zero-length buffer main.c supplies. */
  function Init(cfg: Config): (e: Engine)
    requires cfg.Valid()
    ensures Inv(cfg, e)
    ensures e.state == Disabled && e.buf.length == 0 && e.timeoutMs == DEFAULT_TIMEOUT_MS
  {
    Engine(Disabled, false, false, 0, 0, DEFAULT_TIMEOUT_MS, Stopped, IrBuf(0, seq(cfg.capacity, _ => 0)))
  }

  /** The raw interval in microseconds between two cycle-counter readings. */
  function Interval(cfg: Config, now: u32, prev: u32): u32
    requires cfg.Valid()
  {
    Elapsed(now, prev, cfg.usDiv)
  }

  /** The calibrated duration: the raw interval plus the pulse bias after a high level, else the space bias. */
  function Calibrate(adj: TimAdj, prevVal: int, raw: u32): (d: u32)
    ensures prevVal == 1 && 0 <= raw as int + adj.pulse as int < U32_MODULUS ==> d as int == raw as int + adj.pulse as int
    ensures prevVal != 1 && 0 <= raw as int + adj.space as int < U32_MODULUS ==> d as int == raw as int + adj.space as int
    ensures adj == TimAdj(0, 0) ==> d == raw
  {
    AddBias(raw, if prevVal == 1 then adj.pulse else adj.space)
  }

  /** `finished`: leave the frame and stop acting on edges. */
  function Finish(e: Engine): (r: Engine)
    ensures r.state == Finished && !r.recvEnabled
    ensures r.buf == e.buf && r.timer == e.timer && r.prevTime == e.prevTime
  {
    e.(recvEnabled := false, state := Finished)
  }

  /**
   `timeout_handler`, run when the watchdog expires at cycle count `now`.
   A stopped timer cannot expire, so then nothing happens; otherwise the
   one-shot timer is spent, the unbiased trailing interval is stored if
   fewer than `capacity - 1` samples are held, and the frame is finished.
   */
  function OnTimeout(cfg: Config, e: Engine, now: u32): (r: Engine)
    requires cfg.Valid() && e.buf.Fits(cfg.capacity)
    ensures r.buf.Fits(cfg.capacity)
    ensures Inv(cfg, e) ==> Inv(cfg, r)
    ensures e.timer.Stopped? ==> r == e
    ensures e.timer.Running? ==> r.state == Finished && !r.recvEnabled && r.timer == Stopped
    ensures e.timer.Running? && e.buf.length < cfg.capacity - 1 ==>
              r.buf == e.buf.Append(Interval(cfg, now, e.prevTime))
    ensures e.timer.Running? && e.buf.length >= cfg.capacity - 1 ==> r.buf == e.buf
    ensures r.prevVal == e.prevVal && r.prevTime == e.prevTime && r.timeoutMs == e.timeoutMs
  {
    if e.timer.Stopped? then e
    else
      var spent := e.(timer := Stopped);
      var flushed :=
        if e.buf.length < cfg.capacity - 1 then spent.(buf := e.buf.Append(Interval(cfg, now, e.prevTime)))
        else spent;
      Finish(flushed)
  }

  /** The watchdog (re)started with the currently configured timeout. */
  function Rearm(e: Engine): Engine {
    e.(timer := Running(e.timeoutMs))
  }

  /** The edge handler's final check for a full buffer, which stops the watchdog and finishes the frame. */
  predicate CompletionFires(cfg: Config, e: Engine) {
    e.buf.length == cfg.capacity
  }

  /**
   `irsen_change`: the sensor pin changed and now reads `level` (a negative
   value is a failed read) at cycle count `now`.
   */
  function OnEdge(cfg: Config, e: Engine, level: int, now: u32): (r: Engine)
    requires cfg.Valid() && e.buf.Fits(cfg.capacity)
    ensures r.buf.Fits(cfg.capacity)
    ensures Inv(cfg, e) ==> Inv(cfg, r)
    // ignored: capture not enabled, or a failed pin read
    ensures !e.recvEnabled || (level != 0 && level != 1) ==> r == e
    // waiting for the leading edge
    ensures e.recvEnabled && !e.recvStarted && level == 0 ==> r == e
    ensures e.recvEnabled && !e.recvStarted && level == 1 ==>
              && r.state == Receiving && r.recvStarted && r.recvEnabled
              && r.buf == e.buf.(length := 0)
              && r.prevVal == 1 && r.prevTime == now
              && r.timer == Running(e.timeoutMs)
    // a repeated level: nothing stored, the reference edge kept, the watchdog restarted
    ensures e.recvEnabled && e.recvStarted && (level == 0 || level == 1) && level == e.prevVal ==>
              r == e.(timer := Running(e.timeoutMs))
    // an accepted level change with room to store it
    ensures e.recvEnabled && e.recvStarted && (level == 0 || level == 1) && level != e.prevVal
            && e.buf.length < cfg.capacity - 1 ==>
              && r.buf == e.buf.Append(Calibrate(cfg.adjust, e.prevVal, Interval(cfg, now, e.prevTime)))
              && r.prevVal == level && r.prevTime == now
              && r.state == e.state && r.timer == Running(e.timeoutMs)
    // a level change with no room below `capacity - 1`: dropped, reference edge kept
    ensures e.recvEnabled && e.recvStarted && (level == 0 || level == 1) && level != e.prevVal
            && cfg.capacity - 1 <= e.buf.length < cfg.capacity ==>
              r == e.(timer := Running(e.timeoutMs))
    // the completion branch, taken only when the length already equals the capacity
    ensures e.recvEnabled && e.recvStarted && (level == 0 || level == 1) && level != e.prevVal
            && e.buf.length == cfg.capacity ==>
              r.state == Finished && r.timer == Stopped && !r.recvEnabled && r.buf == e.buf
    // the finding: under the invariant, an edge never ends a frame
    ensures Inv(cfg, e) ==> (r.state == Finished <==> e.state == Finished)
  {
    if !e.recvEnabled then e
    else if level != 0 && level != 1 then e
    else if !e.recvStarted then
      if level == 1 then
        e.(prevVal := level, prevTime := now, recvStarted := true,
           buf := e.buf.(length := 0), state := Receiving, timer := Running(e.timeoutMs))
      else e
    else
      var alive := Rearm(e);
      if level == e.prevVal then alive
      else
        var stored :=
          if e.buf.length < cfg.capacity - 1 then
            var d := Calibrate(cfg.adjust, e.prevVal, Interval(cfg, now, e.prevTime));
            alive.(buf := e.buf.Append(d), prevTime := now, prevVal := level)
          else alive;
        if CompletionFires(cfg, stored) then Finish(stored.(timer := Stopped)) else stored
  }

  /** `ir_recv_enable`: from Disabled or Finished, wait for a new leading edge; otherwise nothing changes. */
  function Enable(e: Engine): (r: Engine)
    ensures e.state == Disabled || e.state == Finished ==>
              && r.state == Enabled && r.recvEnabled && !r.recvStarted
              && r.buf == e.buf && r.timer == e.timer && r.timeoutMs == e.timeoutMs
    ensures e.state == Enabled || e.state == Receiving ==> r == e
    ensures forall cfg: Config :: Inv(cfg, e) ==> Inv(cfg, r)
  {
    if e.state != Disabled && e.state != Finished then e
    else e.(recvStarted := false, recvEnabled := true, state := Enabled)
  }

  /** `ir_recv_disable`: from any state, stop acting on edges and stop the watchdog. */
  function Disable(e: Engine): (r: Engine)
    ensures r.state == Disabled && !r.recvEnabled && r.timer == Stopped
    ensures r.buf == e.buf && r.prevVal == e.prevVal && r.prevTime == e.prevTime && r.timeoutMs == e.timeoutMs
    ensures forall cfg: Config :: Inv(cfg, e) ==> Inv(cfg, r)
  {
    e.(recvEnabled := false, timer := Stopped, state := Disabled)
  }

  /** `ir_recv_is_enabled`: capture counts as enabled in every state but Disabled, Finished included. */
  function IsEnabled(e: Engine): bool {
    e.state != Disabled
  }

  /** `ir_recv_get_timeout`. */
  function GetTimeout(e: Engine): u32 {
    e.timeoutMs
  }

  /** `ir_recv_set_timeout`: a running watchdog keeps its period; the new value applies from the next (re)start. */
  function SetTimeout(e: Engine, ms: u32): (r: Engine)
    ensures GetTimeout(r) == ms
    ensures r.timer == e.timer && r.state == e.state && r.buf == e.buf
    ensures forall cfg: Config :: Inv(cfg, e) ==> Inv(cfg, r)
  {
    e.(timeoutMs := ms)
  }

  /** One pass of the worker loop: the buffer handed to the decoder, if any, and the engine afterwards. */
  datatype Poll = Poll(next: Engine, handed: Option<IrBuf>)

  /**
   The body of the loop in `ir_recv_thread_entry`: a finished frame is
   handed to the decoder (which only reads it) and capture is re-enabled.
   */
  function WorkerPoll(e: Engine): (r: Poll)
    ensures e.state == Finished ==>
              r.handed == Some(e.buf) && r.next.state == Enabled && r.next.buf == e.buf && !r.next.recvStarted
    ensures e.state != Finished ==> r.handed == None && r.next == e
    ensures forall cfg: Config :: Inv(cfg, e) ==> Inv(cfg, r.next)
  {
    if e.state == Finished then Poll(Enable(e), Some(e.buf)) else Poll(e, None)
  }

  /** Everything that can happen to the engine, one atomic step each. */
  datatype Event =
    | Edge(level: int, time: u32)
    | Expiry(time: u32)
    | EnableCall
    | DisableCall
    | SetTimeoutCall(ms: u32)
    | PollCall

  function Step(cfg: Config, e: Engine, ev: Event): (r: Engine)
    requires cfg.Valid() && e.buf.Fits(cfg.capacity)
    ensures r.buf.Fits(cfg.capacity)
    ensures Inv(cfg, e) ==> Inv(cfg, r)
  {
    match ev
    case Edge(level, time) => OnEdge(cfg, e, level, time)
    case Expiry(time) => OnTimeout(cfg, e, time)
    case EnableCall => Enable(e)
    case DisableCall => Disable(e)
    case SetTimeoutCall(ms) => SetTimeout(e, ms)
    case PollCall => WorkerPoll(e).next
  }

  /** The engine after a sequence of events, in order. */
  function Run(cfg: Config, e: Engine, evs: seq<Event>): (r: Engine)
    requires cfg.Valid() && e.buf.Fits(cfg.capacity)
    ensures r.buf.Fits(cfg.capacity)
    ensures Inv(cfg, e) ==> Inv(cfg, r)
    decreases |evs|
  {
    if |evs| == 0 then e else Run(cfg, Step(cfg, e, evs[0]), evs[1..])
  }
}
