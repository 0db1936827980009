# ir-tool: capture and transmit engines

A Dafny model of the core of ir-tool. This Zephyr firmware records the
raw timing of an infra-red remote's signal from a demodulating sensor and
plays such timings back through a 38 kHz PWM-driven LED.

- **Capture** (`app/src/ir_recv.c`). An edge interrupt timestamps every
  change of the sensor pin with the 32-bit cycle counter. The first
  high level starts a frame. Every later level change stores the
  microseconds since the previous accepted edge, corrected by a pulse or a
  space bias, in a bounded buffer. A one-shot watchdog restarted by each
  edge ends the frame after a silence and stores the unbiased trailing
  interval. A worker loop hands a finished frame to the decoder and
  re-arms capture. `ir_recv_enable`, `ir_recv_disable`,
  `ir_recv_is_enabled` and the timeout accessors steer the state machine
  Disabled → Enabled → Receiving → Finished.
- **Transmit** (`app/src/ir_send.c`). `ir_send_buf` walks the buffer in
  pairs. It switches the carrier on and busy-waits for the pulse plus its
  bias. It switches the carrier off and, unless the pulse was the last
  sample, busy-waits for the space plus its bias. A failing PWM call
  aborts the routine; when the failing call is the carrier-off one, the
  carrier is left on (`Transmit.SendBracketed` only promises it ends off
  when no call fails). `ir_send_nec` fills the buffer with the NEC encoding
  of an address/command pair and sends it.

Modules:

- `Types`. The `uint32_t`, `uint8_t` and `int32_t` newtypes. Wrap-around
  is explicit: `Wrap`, `Sub`, `Elapsed`, `AddBias`. Also the sample buffer
  `IrBuf` and the bias pair `TimAdj`.
- `Capture`. The module's statics as an immutable `Engine` record. Every
  interrupt handler and thread-side call is a pure step function, with the
  invariant it keeps. `Step` and `Run` fold an arbitrary interleaving of
  such events.
- `CaptureProps`. Properties over whole event sequences. These include the
  samples a clean frame leaves in the buffer and the dead completion
  branch (see Findings).
- `CaptureCorrected`. The capture engine with the buffer-full termination
  working as intended.
- `Transmit`. `ir_send_buf` as a pure function from the buffer to the trace
  of commands it issues (`On`, `WaitUntil(target)`, `Off`, `Abort`). It
  is compared with a closed-form reference trace. `ir_send_nec` is also
  here.
- `Timing`. The busy-waits of that trace, interpreted against a sequence
  of cycle-counter readings.

Parameters in place of hardware:

- The cycle counter, the pin level and the clock rate are arguments of the
  capture steps. The clock rate is `Config.usDiv`, the cycles per
  microsecond.
- The PWM driver is an oracle `pwmOk: nat -> bool`, which tells whether the
  routine's k-th `pwm_set_dt` call succeeds.
- The transmit clock is a finite sequence of `k_cycle_get_32()` readings.
- The NEC encoder is a function argument of `SendNec`.
- The build-time constants `CONFIG_IR_BUF_SIZE` and
  `CONFIG_ADJUST_RECEIVE_PULSE`/`_SPACE` are fields of `Capture.Config`.
  The transmit biases are the `adj` argument.

## Model

| member | source | states |
|---|---|---|
| Types.Wrap | app/src/ir_recv.c:107 | storing an integer into a `uint32_t` keeps it modulo 2^32, and values in range are unchanged |
| Types.Sub | app/src/ir_recv.c:107 | `now - prev` on `uint32_t` is the forward distance on the 2^32 ring: adding it back to `prev` gives `now`, and it is the plain difference when the counter did not wrap |
| Types.Elapsed | app/src/ir_send.c:62 | elapsed microseconds are the cycle difference divided by cycles per microsecond, with 2^32 added when the counter wrapped between the readings |
| Types.AddBias | app/src/ir_recv.c:109-110 | adding a signed bias to a `uint32_t` duration is exact when the sum is in range, and otherwise wraps up or down by 2^32 |
| Types.IrBuf.Append | app/src/ir_recv.c:112 | storing at `buf[length++]` extends the valid samples by exactly that value and leaves every other cell alone |
| Capture.Init | app/src/ir_recv.c:25-43 | power-on state is Disabled with an empty buffer and the 10 ms default timeout, and satisfies the engine invariant |
| Capture.Calibrate | app/src/ir_recv.c:107-110 | a calibrated duration is the raw interval plus the pulse bias after a high level and plus the space bias otherwise; a zero bias leaves it raw |
| Capture.Finish | app/src/ir_recv.c:46-50 | `finished` moves to Finished and stops acting on edges, leaving buffer and timer alone |
| Capture.OnTimeout | app/src/ir_recv.c:52-63 | an expiry finishes the frame, stops the one-shot timer and appends the unbiased trailing interval only while fewer than capacity-1 samples are held; it keeps the invariant |
| Capture.OnEdge | app/src/ir_recv.c:68-122 | every branch of `irsen_change`: ignored when disabled or on a failed read; a high leading edge resets the buffer and arms the watchdog; a repeated level only restarts the watchdog; an accepted change appends the calibrated interval and moves the reference edge; a change with no room is dropped; under the invariant no edge ever finishes a frame |
| Capture.Enable | app/src/ir_recv.c:152-160 | from Disabled or Finished capture waits for a new leading edge with buffer and timer untouched; in Enabled or Receiving nothing changes |
| Capture.Disable | app/src/ir_recv.c:162-167 | from any state capture is Disabled with the watchdog stopped and the buffer and reference edge kept |
| Capture.SetTimeout | app/src/ir_recv.c:174-182 | the getter returns the value set; a running watchdog keeps its period and state and buffer are untouched |
| Capture.WorkerPoll | app/src/ir_recv.c:216-238 | a Finished frame is handed over unchanged and capture is re-enabled; otherwise nothing is handed and nothing changes |
| Capture.Step | app/src/ir_recv.c:52-182 | every handler and API call keeps the buffer within its storage and keeps the engine invariant |
| Capture.Run | app/src/ir_recv.c:210-238 | any interleaving of events keeps the buffer within its storage and keeps the engine invariant |
| CaptureProps.RunAppend | app/src/ir_recv.c:216-238 | running two event sequences in turn equals running their concatenation |
| CaptureProps.CaptureLengthBound | app/src/ir_recv.c:106-121 | from power-on, after any events, at most capacity-1 samples are held and the completion check never fires |
| CaptureProps.FinishedIsSticky | app/src/ir_recv.c:46-50 | after `finished`, edges, expiries and timeout changes leave the frame Finished and its buffer untouched until the worker re-enables |
| CaptureProps.DisabledIsInert | app/src/ir_recv.c:162-167 | a disabled engine stays Disabled with the timer stopped and the buffer untouched under any events other than enable |
| CaptureProps.DisableFreezesBuffer | app/src/ir_recv.c:162-167 | disabling mid-frame freezes the buffer against all pending edges and expiries, and `ir_recv_is_enabled` then reports false |
| CaptureProps.EnableIdempotent | app/src/ir_recv.c:152-160 | enabling twice is enabling once, and afterwards capture reports enabled |
| CaptureProps.IsEnabledMeaning | app/src/ir_recv.c:169-172 | `ir_recv_is_enabled` holds exactly when edges are acted on or a finished frame awaits the worker |
| CaptureProps.FullBufferKeepsReceiving | app/src/ir_recv.c:106-121 | with capacity-1 samples held, a genuine level change is dropped, the frame keeps Receiving with the watchdog restarted, and the later timeout stores nothing |
| CaptureProps.EdgesNeverFinish | app/src/ir_recv.c:117-121 | no sequence of edges ends a frame in the engine as written |
| CaptureProps.RunSnoc | app/src/ir_recv.c:216-238 | the engine after a non-empty event sequence is one step past the engine after all but its last event |
| CaptureProps.FrameSamplesSnoc | app/src/ir_recv.c:106-114 | dropping the last edge of a clean frame drops exactly its last calibrated interval |
| CaptureProps.CleanFrameAlternates | app/src/ir_recv.c:103-106 | the last two edges of a clean frame carry opposite levels, so the last one is accepted |
| CaptureProps.FrameStart | app/src/ir_recv.c:86-98 | the leading high edge starts Receiving with an empty buffer, that edge as reference and the watchdog armed |
| CaptureProps.FrameContinue | app/src/ir_recv.c:100-115 | a level change with room appends the interval calibrated by the previous level and makes the new edge the reference |
| CaptureProps.FrameExtend | app/src/ir_recv.c:100-115 | an engine holding all but the last edge of a clean frame holds the whole frame after that edge |
| CaptureProps.FrameCapture | app/src/ir_recv.c:86-115 | a clean alternating frame of at most capacity edges leaves exactly its calibrated intervals, one per consecutive edge pair, with the last edge as reference and the watchdog running |
| CaptureProps.FrameThenSilence | app/src/ir_recv.c:52-63 | silence after such a frame finishes it and appends the trailing interval from the last edge, without bias |
| CaptureCorrected.OnTimeout | app/src/ir_recv.c:52-63 | the watchdog with the storage guard at capacity: it finishes the frame and appends the trailing interval whenever a cell is free |
| CaptureCorrected.OnEdge | app/src/ir_recv.c:100-121 | the edge handler with the storage guard at capacity keeps its invariant; repeated levels and accepted changes behave as in the original |
| CaptureCorrected.Step | app/src/ir_recv.c:52-182 | every event keeps the corrected invariant |
| CaptureCorrected.Run | app/src/ir_recv.c:210-238 | any interleaving keeps the corrected invariant |
| CaptureCorrected.FromPowerOn | app/src/ir_recv.c:25-43 | from the power-on statics, after any events, the corrected engine keeps its invariant, so a frame in progress always has a free cell for its next sample |
| CaptureCorrected.FullBufferFinishes | app/src/ir_recv.c:117-121 | the level change that fills the last cell is stored, stops the watchdog and finishes the frame at once |
| CaptureCorrected.AgreesBelowCapacity | app/src/ir_recv.c:106-115 | below capacity-1 samples the corrected edge handler is the one as written |
| Transmit.Send | app/src/ir_send.c:44-80 | an empty or negative-length buffer sends nothing; otherwise the first command is carrier-on or an abort |
| Transmit.RefPair | app/src/ir_send.c:53-79 | the reference commands of the pair starting at an even sample i, and where the trace ends for an odd trailing pulse |
| Transmit.ReferenceSplit | app/src/ir_send.c:53-79 | the reference from pair i is that pair's commands followed by the reference from the next pair |
| Transmit.SendFromAllOk | app/src/ir_send.c:53-79 | with every PWM call succeeding, the loop from iteration i emits the rest of the reference trace |
| Transmit.SendAllOk | app/src/ir_send.c:44-80 | a run in which every PWM call succeeds issues exactly the reference trace |
| Transmit.AbortInPair | app/src/ir_send.c:54-70 | a failing PWM call inside iteration i yields the reference up to that call, then an abort |
| Transmit.SendFromAbort | app/src/ir_send.c:53-79 | if call k is the first failure at or after iteration i, the loop emits the reference up to position 2k, then aborts |
| Transmit.SplitAt | app/src/ir_send.c:53-79 | the reference slice from pair i up to a later position is that pair followed by the slice from the next pair |
| Transmit.SendAborts | app/src/ir_send.c:54-70 | when PWM call k is the first to fail, the routine issues the reference up to that call, then Abort, and nothing after |
| Transmit.WaitsAppend | app/src/ir_send.c:53-79 | the waits and carrier-on count of a concatenated trace are those of its parts |
| Transmit.PairFacts | app/src/ir_send.c:54-78 | one successful iteration switches the carrier on once and off again, and waits for its pulse and, if present, its space |
| Transmit.SendFromWaits | app/src/ir_send.c:53-79 | from iteration i a successful run waits for each remaining calibrated sample in order |
| Transmit.SendFromOnCount | app/src/ir_send.c:53-79 | from iteration i a successful run switches the carrier on once per remaining pair |
| Transmit.SendCounts | app/src/ir_send.c:53-79 | a successful run of L samples waits L times, for `buf[k]` plus the pulse bias for even k and the space bias for odd k in buffer order, and switches the carrier on ceil(L/2) times |
| Transmit.CarrierAppend | app/src/ir_send.c:54-70 | the carrier level after a concatenated trace is that of the second part started where the first part left it |
| Transmit.SendFromBracketed | app/src/ir_send.c:54-70 | whatever the driver does, the loop never switches the carrier on twice or off twice in a row, and without an abort it leaves the carrier off |
| Transmit.SendBracketed | app/src/ir_send.c:44-80 | the routine's carrier discipline holds, a complete run ends with the carrier off, and an abort is issued exactly when some PWM call fails |
| Transmit.FirstFailureBelow | app/src/ir_send.c:54-70 | among failing PWM calls there is a first one, at or below any failing call |
| Transmit.SendNec | app/src/ir_send.c:83-94 | the buffer's length becomes the encoding's length, its valid samples are the encoding, the cells beyond are unchanged, and that buffer is what is sent |
| Transmit.SendNecWaits | app/src/ir_send.c:83-94 | a successful `ir_send_nec` waits once per encoded sample, for that sample plus the bias of its parity |
| Timing.FirstReach | app/src/ir_send.c:60-64 | the do-while busy-wait ends at the first reading whose elapsed time reaches the target, and every earlier reading fell short; if none reaches it, the wait does not end |
| Timing.WaitExits | app/src/ir_send.c:60-78 | successive waits end at strictly increasing readings, at most one per target |
| Timing.WaitExitsChain | app/src/ir_send.c:60-78 | each wait starts reading after the previous exit and measures from the reading at which it ended (`prev = now`); a short list means the next wait never ends |
| Timing.Schedule | app/src/ir_send.c:51-78 | the exits of the routine's waits lie after the entry reading and number at most the waits of the trace |
| Timing.ScheduleHonoursTargets | app/src/ir_send.c:51-78 | in a successful run wait k ends at the first reading whose elapsed time since the end of wait k-1 (since entry for k = 0) reaches `buf[k]` plus its parity's bias, and no earlier reading of that wait did |

## Left out

- Concurrency. Interrupt handlers, the timer callback and the worker thread run as atomic steps in any order (`Capture.Run`). Preemption inside a handler, and a timer expiry racing an edge in the same instant, are not modelled.
- Device setup is not modelled: `init` (GPIO configuration and callback registration) and `ir_send_init` (the initial PWM period). Both only configure hardware.
- The PWM period and duty constants (`period_38khz`, `pulse_38khz`) are not modelled. Only success or failure of each `pwm_set_dt` call matters to the control flow.
- The NEC codec (`nec_encode`, `nec_decode`) and `decode_ir_buf`'s logging. `nec_prot.h` and its implementation are not part of this model. The encoder is a parameter of `Transmit.SendNec`, and the decoder is the consumer of the buffer `Capture.WorkerPoll` hands over.
- The `CONFIG_PRINT_RECV_CMDS` print loop of the worker only logs.
- `app/src/main.c`, the shell commands that call this core, is not part of this model.
- `ir_recv_set_buf` is not modelled. The buffer is a field of the engine from power-on, as main.c installs it once before capture starts.
- The `ir_recv_get_tim_adj`/`ir_send_get_tim_adj`/`..._set_tim_adj` accessors are called from main.c but defined in neither core file. The core applies the compile-time constants `CONFIG_ADJUST_*`, so the biases are fixed parameters (`Capture.Config.adjust` and `adj`) and no setter is modelled.
- No parity of the buffer length is stated: a frame may end after a pulse or after a space, and the watchdog's trailing sample can make the length odd or even.
- The trailing sample stored by the watchdog carries no bias (`app/src/ir_recv.c:59`), unlike the edge samples; `Capture.OnTimeout` and `CaptureProps.FrameThenSilence` state it raw.
- The reference edge (`prev_time`, `prev_val`) moves only when a sample is stored (`app/src/ir_recv.c:106-115`); a level change dropped for lack of room leaves it in place, as `Capture.OnEdge` states.
- Timing.Schedule: the cycle counter is a finite sequence of readings. A busy-wait still spinning when the readings run out has no exit, so the model says nothing about a wait that never ends on real hardware.
- Transmit.SendNec: requires the encoding to fit the buffer's storage. `ir_send_nec` (`app/src/ir_send.c:83-94`) hands `nec_encode` only the storage pointer, with no capacity, so the C does not check this; a longer encoding would write past the end of the caller's array, which the model does not describe.
- Capture.Config.Valid, Types.Elapsed, Timing.FirstReach: require a clock rate of at least one cycle per microsecond (`usDiv > 0`). The C divides by `sys_clock_hw_cycles_per_sec() / 1000000` (`app/src/ir_recv.c:55`, `:83`) and by `CONFIG_SYS_CLOCK_HW_CYCLES_PER_SEC / 1000000` (`app/src/ir_send.c:62`, `:75`) without checking; on a system clock below 1 MHz that divisor is zero and the division is undefined behaviour, which the model does not describe.
- Transmit.Send: the busy-waits are commands in the trace, not elapsed time. Their meaning in time is stated separately by `Timing.ScheduleHonoursTargets`.
- Logging (`LOG_ERR`, `LOG_WRN`, `LOG_INF`) and the 1 ms/10 ms sleeps of the worker loop are not modelled.

## Findings

| source | as written | input that shows it | evidently intended | confidence | as-written member | corrected member |
|---|---|---|---|---|---|---|
| app/src/ir_recv.c:106-121 | samples are stored only while `length < CONFIG_IR_BUF_SIZE - 1`, so `length` never exceeds `CONFIG_IR_BUF_SIZE - 1` and the completion branch `length == CONFIG_IR_BUF_SIZE` can never run; the last cell is never written, and a full frame ends only by timeout | capacity N, a frame in Receiving holding N-1 samples, then an accepted level change: it is dropped and the frame keeps Receiving until the watchdog expires | store while `length < CONFIG_IR_BUF_SIZE`, so the edge that fills the last cell stops the watchdog and finishes the frame | high; not executed | CaptureProps.FullBufferKeepsReceiving | CaptureCorrected.FullBufferFinishes |
