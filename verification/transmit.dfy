/**
 The transmit loop of app/src/ir_send.c. `ir_send_buf` is modelled as a
 pure function from the buffer to the trace of commands it issues: the
 38 kHz carrier switched on, a busy-wait until a target number of
 microseconds has elapsed, the carrier switched off, or the abort that
 follows a failing PWM call. The PWM driver is an oracle saying whether
 its k-th call succeeds; the busy-waits are interpreted separately
 against a sequence of cycle-counter readings.
 */
module Transmit {
  import opened Types

  /** One command of the transmit loop. */
  datatype Cmd =
    | On                     // pwm_set_dt with the 1/3 duty cycle succeeded
    | WaitUntil(target: u32) // busy-wait until the elapsed microseconds reach target
    | Off                    // pwm_set_dt with zero duty cycle succeeded
    | Abort                  // a pwm_set_dt call failed: the routine returns

  /** The buffer's valid samples lie within its storage (a non-positive length sends nothing). */
  predicate Readable(b: IrBuf) {
    b.length <= |b.cells|
  }

  /** The wait target for sample `k`: even samples are pulses, odd samples spaces, each with its bias. */
  function Target(b: IrBuf, adj: TimAdj, k: nat): u32
    requires k < b.length <= |b.cells|
  {
    AddBias(b.cells[k], if k % 2 == 0 then adj.pulse else adj.space)
  }

  /**
   The loop from iteration `i` on. Iteration `i` makes PWM calls number
   `i` (carrier on) and `i + 1` (carrier off) of the routine.
   */
  function SendFrom(b: IrBuf, adj: TimAdj, pwmOk: nat -> bool, i: nat): (t: seq<Cmd>)
    requires Readable(b) && i % 2 == 0
    decreases b.length - i
  {
    if i >= b.length then []
    else if !pwmOk(i) then [Abort]
    else if !pwmOk(i + 1) then [On, WaitUntil(Target(b, adj, i)), Abort]
    else Pair(b, adj, i) + SendFrom(b, adj, pwmOk, i + 2)
  }

  /** `ir_send_buf`: the commands issued for buffer `b` with transmit biases `adj`. */
  function Send(b: IrBuf, adj: TimAdj, pwmOk: nat -> bool): (t: seq<Cmd>)
    requires Readable(b)
    ensures b.length <= 0 ==> t == []
    ensures b.length > 0 ==> |t| >= 1 && (t[0] == On || t[0] == Abort)
  {
    SendFrom(b, adj, pwmOk, 0)
  }

  // ---------------------------------------------------------------------
  // The reference: the trace of a run in which every PWM call succeeds,
  // in closed form. Sample pair m occupies positions 4m .. 4m+3.
  // ---------------------------------------------------------------------

  /** The length of a complete trace: four commands per pair, three for an odd trailing pulse. */
  function TraceLen(len: int): nat {
    if len <= 0 then 0 else 2 * len + len % 2
  }

  /** The number of PWM calls of a complete run: two per started pair. */
  function PwmCalls(len: int): nat {
    if len <= 0 then 0 else len + len % 2
  }

  /** Command `p` of the complete trace. */
  function RefCmd(b: IrBuf, adj: TimAdj, p: nat): Cmd
    requires Readable(b) && p < TraceLen(b.length)
  {
    var i := 2 * (p / 4);
    if p % 4 == 0 then On
    else if p % 4 == 1 then WaitUntil(Target(b, adj, i))
    else if p % 4 == 2 then Off
    else WaitUntil(Target(b, adj, i + 1))
  }

  /** The complete trace. */
  function Reference(b: IrBuf, adj: TimAdj): (t: seq<Cmd>)
    requires Readable(b)
    ensures |t| == TraceLen(b.length)
  {
    seq(TraceLen(b.length), p requires 0 <= p < TraceLen(b.length) => RefCmd(b, adj, p))
  }

  /** Every PWM call among the first `n` succeeds. */
  predicate AllOk(pwmOk: nat -> bool, n: nat) {
    forall k: nat :: k < n ==> pwmOk(k)
  }

  /** Call `k` is the first PWM call that fails. */
  predicate FirstFailure(pwmOk: nat -> bool, k: nat) {
    !pwmOk(k) && AllOk(pwmOk, k)
  }

  /** The four (or, for an odd trailing pulse, three) reference commands of the pair starting at sample `i`. */
  lemma RefPair(b: IrBuf, adj: TimAdj, i: nat)
    requires Readable(b) && i % 2 == 0 && i < b.length
    ensures 2 * i + 3 <= TraceLen(b.length)
    ensures i + 1 < b.length ==> 2 * i + 4 <= TraceLen(b.length)
    ensures i + 1 >= b.length ==> 2 * i + 3 == TraceLen(b.length)
    ensures Reference(b, adj)[2 * i] == On
    ensures Reference(b, adj)[2 * i + 1] == WaitUntil(Target(b, adj, i))
    ensures Reference(b, adj)[2 * i + 2] == Off
    ensures i + 1 < b.length ==> Reference(b, adj)[2 * i + 3] == WaitUntil(Target(b, adj, i + 1))
  {
    var m := i / 2;
    assert i == 2 * m;
    assert (2 * i) / 4 == m && (2 * i) % 4 == 0;
    assert (2 * i + 1) / 4 == m && (2 * i + 1) % 4 == 1;
    assert (2 * i + 2) / 4 == m && (2 * i + 2) % 4 == 2;
    assert (2 * i + 3) / 4 == m && (2 * i + 3) % 4 == 3;
  }

  /** One successful iteration of the loop: its commands, then the rest of the loop. */
  lemma Unfold(b: IrBuf, adj: TimAdj, pwmOk: nat -> bool, i: nat)
    requires Readable(b) && i % 2 == 0 && i < b.length && pwmOk(i) && pwmOk(i + 1)
    ensures SendFrom(b, adj, pwmOk, i) == Pair(b, adj, i) + SendFrom(b, adj, pwmOk, i + 2)
  {
  }

  /** The commands of a successful iteration `i`: on, pulse wait, off and, unless `i` is the last sample, a space wait. */
  function Pair(b: IrBuf, adj: TimAdj, i: nat): (t: seq<Cmd>)
    requires Readable(b) && i < b.length
  {
    [On, WaitUntil(Target(b, adj, i)), Off] + (if i + 1 < b.length then [WaitUntil(Target(b, adj, i + 1))] else [])
  }

  /** The reference trace is its first pair followed by the reference from the next pair on. */
  lemma ReferenceSplit(b: IrBuf, adj: TimAdj, i: nat)
    requires Readable(b) && i % 2 == 0 && i < b.length
    ensures 2 * i + |Pair(b, adj, i)| <= TraceLen(b.length)
    ensures Reference(b, adj)[2 * i..] == Pair(b, adj, i) + Reference(b, adj)[2 * i + |Pair(b, adj, i)|..]
    ensures i + 1 >= b.length ==> 2 * i + |Pair(b, adj, i)| == TraceLen(b.length)
  {
    var t := Reference(b, adj);
    var pair := Pair(b, adj, i);
    assert 2 * i + |pair| <= |t| && (i + 1 >= b.length ==> 2 * i + |pair| == |t|)
           && 3 <= |pair| <= 4 && t[2 * i] == pair[0] && t[2 * i + 1] == pair[1] && t[2 * i + 2] == pair[2]
           && (|pair| == 4 ==> t[2 * i + 3] == pair[3]) by {
      RefPair(b, adj, i);
    }
    PrefixOf(t, 2 * i, pair);
  }

  /** A suffix that starts with the three or four commands of `pair`. */
  lemma PrefixOf(t: seq<Cmd>, p: nat, pair: seq<Cmd>)
    requires 3 <= |pair| <= 4 && p + |pair| <= |t|
    requires t[p] == pair[0] && t[p + 1] == pair[1] && t[p + 2] == pair[2] && (|pair| == 4 ==> t[p + 3] == pair[3])
    ensures t[p..] == pair + t[p + |pair|..]
  {
  }

  /** With every PWM call succeeding, the loop from iteration `i` emits the rest of the reference trace. */
  lemma {:induction false} SendFromAllOk(b: IrBuf, adj: TimAdj, pwmOk: nat -> bool, i: nat)
    requires Readable(b) && i % 2 == 0 && AllOk(pwmOk, PwmCalls(b.length))
    ensures 2 * i <= TraceLen(b.length) ==> SendFrom(b, adj, pwmOk, i) == Reference(b, adj)[2 * i..]
    ensures 2 * i > TraceLen(b.length) ==> SendFrom(b, adj, pwmOk, i) == []
    decreases b.length - i
  {
    var L := b.length;
    if i < L {
      assert pwmOk(i) && pwmOk(i + 1);
      Unfold(b, adj, pwmOk, i);
      ReferenceSplit(b, adj, i);
      SendFromAllOk(b, adj, pwmOk, i + 2);
      var h := |Pair(b, adj, i)|;
      if i + 1 < L {
        assert h == 4;
      } else {
        assert SendFrom(b, adj, pwmOk, i + 2) == [];
        assert Reference(b, adj)[2 * i + h..] == [];
      }
    } else {
      assert SendFrom(b, adj, pwmOk, i) == [];
      assert 2 * i >= TraceLen(L);
    }
  }

  /** A run in which every PWM call succeeds issues exactly the reference trace. */
  lemma SendAllOk(b: IrBuf, adj: TimAdj, pwmOk: nat -> bool)
    requires Readable(b) && AllOk(pwmOk, PwmCalls(b.length))
    ensures Send(b, adj, pwmOk) == Reference(b, adj)
  {
    SendFromAllOk(b, adj, pwmOk, 0);
  }

  /** A PWM call of iteration `i` itself fails: the reference up to that call, then the abort. */
  lemma AbortInPair(b: IrBuf, adj: TimAdj, pwmOk: nat -> bool, i: nat, k: nat)
    requires Readable(b) && i % 2 == 0 && i < b.length && (k == i || k == i + 1)
    requires !pwmOk(k) && (k == i + 1 ==> pwmOk(i))
    ensures 2 * k <= TraceLen(b.length)
    ensures SendFrom(b, adj, pwmOk, i) == Reference(b, adj)[2 * i..2 * k] + [Abort]
  {
    var t := Reference(b, adj);
    RefPair(b, adj, i);
    if k == i {
      assert t[2 * i..2 * k] == [];
    } else {
      assert t[2 * i..2 * k] == [On, WaitUntil(Target(b, adj, i))];
    }
  }

  /** If PWM call `k` is the first to fail, the loop from iteration `i` emits the reference up to that call, then aborts. */
  lemma {:induction false} SendFromAbort(b: IrBuf, adj: TimAdj, pwmOk: nat -> bool, i: nat, k: nat)
    requires Readable(b) && i % 2 == 0 && i <= k < PwmCalls(b.length)
    requires !pwmOk(k) && forall j: nat :: i <= j < k ==> pwmOk(j)
    ensures 2 * k <= TraceLen(b.length)
    ensures SendFrom(b, adj, pwmOk, i) == Reference(b, adj)[2 * i..2 * k] + [Abort]
    decreases k - i
  {
    assert i < b.length;
    if k <= i + 1 {
      AbortInPair(b, adj, pwmOk, i, k);
    } else {
      var t := Reference(b, adj);
      assert pwmOk(i) && pwmOk(i + 1) && i + 1 < b.length;
      Unfold(b, adj, pwmOk, i);
      SendFromAbort(b, adj, pwmOk, i + 2, k);
      SplitAt(b, adj, i, k);
    }
  }

  /** The reference from pair `i` up to position `2k` (beyond that pair) is the pair, then the reference from the next pair. */
  lemma SplitAt(b: IrBuf, adj: TimAdj, i: nat, k: nat)
    requires Readable(b) && i % 2 == 0 && i + 1 < b.length && i + 2 <= k && 2 * k <= TraceLen(b.length)
    ensures Reference(b, adj)[2 * i..2 * k] == Pair(b, adj, i) + Reference(b, adj)[2 * i + 4..2 * k]
  {
    var t := Reference(b, adj);
    ReferenceSplit(b, adj, i);
    assert t[2 * i..2 * k] == t[2 * i..][..2 * k - 2 * i];
  }

  /**
   A failing PWM call ends the routine at once: the trace is the reference
   up to that call (call `k` sits at position `2k`) followed by Abort, and
   nothing after it.
   */
  lemma SendAborts(b: IrBuf, adj: TimAdj, pwmOk: nat -> bool, k: nat)
    requires Readable(b) && k < PwmCalls(b.length) && FirstFailure(pwmOk, k)
    ensures Send(b, adj, pwmOk) == Reference(b, adj)[..2 * k] + [Abort]
  {
    SendFromAbort(b, adj, pwmOk, 0, k);
    assert Reference(b, adj)[0..2 * k] == Reference(b, adj)[..2 * k];
  }

  // ---------------------------------------------------------------------
  // Counting: the wait targets are the calibrated buffer, in order.
  // ---------------------------------------------------------------------

  /** The wait targets of a trace, in order. */
  function Waits(t: seq<Cmd>): (w: seq<u32>)
    ensures |w| <= |t|
  {
    if |t| == 0 then []
    else (if t[0].WaitUntil? then [t[0].target] else []) + Waits(t[1..])
  }

  /** The number of times a trace switches the carrier on. */
  function CountOn(t: seq<Cmd>): nat {
    if |t| == 0 then 0 else (if t[0] == On then 1 else 0) + CountOn(t[1..])
  }

  lemma {:induction false} WaitsAppend(a: seq<Cmd>, c: seq<Cmd>)
    ensures Waits(a + c) == Waits(a) + Waits(c)
    ensures CountOn(a + c) == CountOn(a) + CountOn(c)
    decreases |a|
  {
    if |a| == 0 {
      assert a + c == c;
    } else {
      assert a == [a[0]] + a[1..];
      assert a + c == [a[0]] + (a[1..] + c);
      Cons(a[0], a[1..], false);
      Cons(a[0], a[1..] + c, false);
      WaitsAppend(a[1..], c);
    }
  }

  /** Waits, CountOn and Carrier of a trace with one more command in front. */
  lemma Cons(c: Cmd, t: seq<Cmd>, on: bool)
    ensures Waits([c] + t) == (if c.WaitUntil? then [c.target] else []) + Waits(t)
    ensures CountOn([c] + t) == (if c == On then 1 else 0) + CountOn(t)
    ensures Carrier([c] + t, on) == (match c
                                     case On => if on then None else Carrier(t, true)
                                     case Off => if on then Carrier(t, false) else None
                                     case _ => Carrier(t, on))
  {
    assert ([c] + t)[0] == c;
    assert ([c] + t)[1..] == t;
  }

  /** A successful iteration switches the carrier on once and off again, and waits for its one or two samples. */
  lemma PairFacts(b: IrBuf, adj: TimAdj, i: nat)
    requires Readable(b) && i < b.length
    ensures CountOn(Pair(b, adj, i)) == 1
    ensures Waits(Pair(b, adj, i)) == [Target(b, adj, i)] + (if i + 1 < b.length then [Target(b, adj, i + 1)] else [])
    ensures Carrier(Pair(b, adj, i), false) == Some(false)
  {
    var space := if i + 1 < b.length then [WaitUntil(Target(b, adj, i + 1))] else [];
    if space != [] {
      Cons(space[0], [], false);
      assert space == [space[0]] + [];
    }
    Cons(Off, space, true);
    Cons(WaitUntil(Target(b, adj, i)), [Off] + space, true);
    Cons(On, [WaitUntil(Target(b, adj, i))] + ([Off] + space), false);
    assert Pair(b, adj, i) == [On] + ([WaitUntil(Target(b, adj, i))] + ([Off] + space));
  }

  /** The calibrated samples from `i` on: every sample with the bias of its parity. */
  function Calibrated(b: IrBuf, adj: TimAdj, i: nat): (s: seq<u32>)
    requires Readable(b) && i <= b.length
    ensures |s| == b.length - i
    ensures forall k :: 0 <= k < |s| ==> s[k] == Target(b, adj, i + k)
  {
    seq(b.length - i, k requires 0 <= k < b.length - i => Target(b, adj, i + k))
  }

  /** From iteration `i`, a successful run waits for each remaining sample in turn. */
  lemma {:induction false} SendFromWaits(b: IrBuf, adj: TimAdj, pwmOk: nat -> bool, i: nat)
    requires Readable(b) && i % 2 == 0 && i <= b.length + 1 && AllOk(pwmOk, PwmCalls(b.length))
    ensures i <= b.length ==> Waits(SendFrom(b, adj, pwmOk, i)) == Calibrated(b, adj, i)
    ensures i > b.length ==> SendFrom(b, adj, pwmOk, i) == []
    decreases b.length + 1 - i
  {
    var L := b.length;
    if i < L {
      assert pwmOk(i) && pwmOk(i + 1);
      var rest := SendFrom(b, adj, pwmOk, i + 2);
      Unfold(b, adj, pwmOk, i);
      SendFromWaits(b, adj, pwmOk, i + 2);
      WaitsAppend(Pair(b, adj, i), rest);
      PairFacts(b, adj, i);
      CalibratedSplit(b, adj, i);
    }
  }

  /** The calibrated samples from `i` are those of iteration `i`, then those from `i + 2`. */
  lemma CalibratedSplit(b: IrBuf, adj: TimAdj, i: nat)
    requires Readable(b) && i < b.length
    ensures i + 1 < b.length ==>
              Calibrated(b, adj, i) == [Target(b, adj, i), Target(b, adj, i + 1)] + Calibrated(b, adj, i + 2)
    ensures i + 1 >= b.length ==> Calibrated(b, adj, i) == [Target(b, adj, i)]
  {
  }

  /** From iteration `i`, a successful run switches the carrier on once per remaining pair. */
  lemma {:induction false} SendFromOnCount(b: IrBuf, adj: TimAdj, pwmOk: nat -> bool, i: nat)
    requires Readable(b) && i % 2 == 0 && i <= b.length + 1 && AllOk(pwmOk, PwmCalls(b.length))
    ensures CountOn(SendFrom(b, adj, pwmOk, i)) == (b.length - i + 1) / 2
    decreases b.length + 1 - i
  {
    if i < b.length {
      assert pwmOk(i) && pwmOk(i + 1);
      Unfold(b, adj, pwmOk, i);
      SendFromOnCount(b, adj, pwmOk, i + 2);
      WaitsAppend(Pair(b, adj, i), SendFrom(b, adj, pwmOk, i + 2));
      PairFacts(b, adj, i);
    }
  }

  /**
   A successful run of a buffer of length L waits exactly L times, with
   targets `buf[k]` plus the pulse bias for even k and the space bias for
   odd k, in buffer order; it switches the carrier on ceil(L/2) times, so
   floor(L/2) of the waits are spaces.
   */
  lemma SendCounts(b: IrBuf, adj: TimAdj, pwmOk: nat -> bool)
    requires Readable(b) && b.length >= 0 && AllOk(pwmOk, PwmCalls(b.length))
    ensures Waits(Send(b, adj, pwmOk)) == Calibrated(b, adj, 0)
    ensures |Waits(Send(b, adj, pwmOk))| == b.length
    ensures CountOn(Send(b, adj, pwmOk)) == (b.length + 1) / 2
  {
    SendFromWaits(b, adj, pwmOk, 0);
    SendFromOnCount(b, adj, pwmOk, 0);
  }

  // ---------------------------------------------------------------------
  // The carrier: never switched on twice without an off in between.
  // ---------------------------------------------------------------------

  /** The carrier level after a trace started at `on`, or None if the trace switches it on twice or off twice in a row. */
  function Carrier(t: seq<Cmd>, on: bool): Option<bool> {
    if |t| == 0 then Some(on)
    else match t[0]
      case On => if on then None else Carrier(t[1..], true)
      case Off => if on then Carrier(t[1..], false) else None
      case _ => Carrier(t[1..], on)
  }

  lemma {:induction false} CarrierAppend(a: seq<Cmd>, c: seq<Cmd>, on: bool)
    ensures Carrier(a + c, on) == (match Carrier(a, on) case None => None case Some(x) => Carrier(c, x))
    decreases |a|
  {
    if |a| > 0 {
      assert a == [a[0]] + a[1..];
      assert a + c == [a[0]] + (a[1..] + c);
      Cons(a[0], a[1..], on);
      Cons(a[0], a[1..] + c, on);
      CarrierAppend(a[1..], c, true);
      CarrierAppend(a[1..], c, false);
    } else {
      assert a + c == c;
    }
  }

  /**
   Whatever the PWM driver does, every On of the loop from `i` is followed
   by an Off before the next On; a run without an abort leaves the carrier
   off.
   */
  lemma {:induction false} SendFromBracketed(b: IrBuf, adj: TimAdj, pwmOk: nat -> bool, i: nat)
    requires Readable(b) && i % 2 == 0
    ensures Carrier(SendFrom(b, adj, pwmOk, i), false).Some?
    ensures Abort !in SendFrom(b, adj, pwmOk, i) ==> Carrier(SendFrom(b, adj, pwmOk, i), false) == Some(false)
    decreases b.length - i
  {
    var t := SendFrom(b, adj, pwmOk, i);
    if i < b.length && pwmOk(i) {
      if !pwmOk(i + 1) {
        Cons(Abort, [], true);
        Cons(WaitUntil(Target(b, adj, i)), [Abort], true);
        Cons(On, [WaitUntil(Target(b, adj, i)), Abort], false);
        assert [On, WaitUntil(Target(b, adj, i)), Abort] == [On] + [WaitUntil(Target(b, adj, i)), Abort];
        assert [WaitUntil(Target(b, adj, i)), Abort] == [WaitUntil(Target(b, adj, i))] + [Abort];
        assert [Abort] == [Abort] + [];
      } else {
        var rest := SendFrom(b, adj, pwmOk, i + 2);
        Unfold(b, adj, pwmOk, i);
        PairFacts(b, adj, i);
        CarrierAppend(Pair(b, adj, i), rest, false);
        SendFromBracketed(b, adj, pwmOk, i + 2);
        if Abort !in t {
          assert forall x :: x in rest ==> x in t;
        }
      }
    }
  }

  /** The carrier discipline of `ir_send_buf`, and an abort is issued exactly when some PWM call of the run fails. */
  lemma SendBracketed(b: IrBuf, adj: TimAdj, pwmOk: nat -> bool)
    requires Readable(b)
    ensures Carrier(Send(b, adj, pwmOk), false).Some?
    ensures AllOk(pwmOk, PwmCalls(b.length)) ==> Carrier(Send(b, adj, pwmOk), false) == Some(false)
    ensures AllOk(pwmOk, PwmCalls(b.length)) <==> Abort !in Send(b, adj, pwmOk)
  {
    SendFromBracketed(b, adj, pwmOk, 0);
    if AllOk(pwmOk, PwmCalls(b.length)) {
      SendAllOk(b, adj, pwmOk);
      assert Abort !in Reference(b, adj);
    } else {
      var k: nat :| k < PwmCalls(b.length) && !pwmOk(k);
      var first := FirstFailureBelow(pwmOk, k);
      SendAborts(b, adj, pwmOk, first);
      var t := Send(b, adj, pwmOk);
      assert t[|t| - 1] == Abort;
    }
  }

  /** The first failing PWM call at or below a failing one. */
  lemma {:induction false} FirstFailureBelow(pwmOk: nat -> bool, k: nat) returns (first: nat)
    requires !pwmOk(k)
    ensures first <= k && FirstFailure(pwmOk, first)
    decreases k
  {
    if k == 0 || AllOk(pwmOk, k) {
      first := k;
    } else {
      var j: nat :| j < k && !pwmOk(j);
      first := FirstFailureBelow(pwmOk, j);
    }
  }

  // ---------------------------------------------------------------------
  // ir_send_nec
  // ---------------------------------------------------------------------

  /** The buffer after `ir_send_nec` and the commands it issued. */
  datatype NecSend = NecSend(buf: IrBuf, trace: seq<Cmd>)

  /**
   `ir_send_nec`: the encoder (a parameter here) writes its waveform into
   the front of the buffer's storage, the buffer's length becomes the
   waveform's length, and that same buffer is transmitted.
   */
  function SendNec(address: u8, command: u8, b: IrBuf, encode: (u8, u8) -> seq<u32>,
                   adj: TimAdj, pwmOk: nat -> bool): (r: NecSend)
    requires |encode(address, command)| <= |b.cells|
    ensures r.buf.length == |encode(address, command)|
    ensures |r.buf.cells| == |b.cells|
    ensures r.buf.Samples() == encode(address, command)
    ensures r.buf.cells[r.buf.length..] == b.cells[r.buf.length..]
    ensures Readable(r.buf) && r.trace == Send(r.buf, adj, pwmOk)
  {
    var wave := encode(address, command);
    var filled := IrBuf(|wave|, wave + b.cells[|wave|..]);
    NecSend(filled, Send(filled, adj, pwmOk))
  }

  /** A successful `ir_send_nec` waits once per encoded sample, for that sample plus the bias of its parity. */
  lemma SendNecWaits(address: u8, command: u8, b: IrBuf, encode: (u8, u8) -> seq<u32>,
                     adj: TimAdj, pwmOk: nat -> bool)
    requires |encode(address, command)| <= |b.cells|
    requires AllOk(pwmOk, PwmCalls(|encode(address, command)|))
    ensures var wave := encode(address, command);
            Waits(SendNec(address, command, b, encode, adj, pwmOk).trace)
            == seq(|wave|, k requires 0 <= k < |wave| => AddBias(wave[k], if k % 2 == 0 then adj.pulse else adj.space))
  {
    var r := SendNec(address, command, b, encode, adj, pwmOk);
    SendCounts(r.buf, adj, pwmOk);
  }
}
