/**
 The busy-waits of `ir_send_buf` interpreted against the cycle counter.
 The counter is a sequence of readings, the k-th `k_cycle_get_32()` of
 the routine; the first is taken on entry, and every wait reads the
 counter at least once, until the elapsed microseconds since its
 reference reading reach the wait's target. A wait that is still
 spinning when the readings run out has no exit.
 */
module Timing {
  import opened Types
  import opened Transmit

  /** The do-while busy-wait: the first reading from `from` on whose elapsed time since `prev` reaches `target`. */
  function FirstReach(clock: seq<u32>, from: nat, prev: u32, usDiv: u32, target: u32): (r: Option<nat>)
    requires usDiv > 0
    ensures r.Some? ==> from <= r.value < |clock| && Elapsed(clock[r.value], prev, usDiv) >= target
    ensures r.Some? ==> forall j :: from <= j < r.value ==> Elapsed(clock[j], prev, usDiv) < target
    ensures r.None? ==> forall j :: from <= j < |clock| ==> Elapsed(clock[j], prev, usDiv) < target
    decreases |clock| - from
  {
    if from >= |clock| then None
    else if Elapsed(clock[from], prev, usDiv) >= target then Some(from)
    else FirstReach(clock, from + 1, prev, usDiv, target)
  }

  /** Where wait `k` starts reading: at `from` for the first wait, else just after the previous wait's exit. */
  function StartOf(exits: seq<nat>, k: nat, from: nat): nat
    requires k <= |exits|
  {
    if k == 0 then from else exits[k - 1] + 1
  }

  /** What wait `k` measures from: `prev` for the first wait, else the reading that ended the previous wait. */
  function RefOf(clock: seq<u32>, exits: seq<nat>, k: nat, prev: u32): u32
    requires k <= |exits| && (k > 0 ==> exits[k - 1] < |clock|)
  {
    if k == 0 then prev else clock[exits[k - 1]]
  }

  /**
   The readings at which successive waits end. Each wait reads from
   just after the previous exit and measures from the previous exit's
   reading; the list stops at the first wait the readings do not end.
   */
  function WaitExits(targets: seq<u32>, clock: seq<u32>, from: nat, prev: u32, usDiv: u32): (r: seq<nat>)
    requires usDiv > 0
    ensures |r| <= |targets|
    ensures forall k :: 0 <= k < |r| ==> from <= r[k] < |clock|
    ensures forall k :: 0 < k < |r| ==> r[k - 1] < r[k]
    decreases |targets|
  {
    if |targets| == 0 then []
    else match FirstReach(clock, from, prev, usDiv, targets[0])
      case None => []
      case Some(j) => [j] + WaitExits(targets[1..], clock, j + 1, clock[j], usDiv)
  }

  /** Every listed exit is where its own busy-wait ends; a short list means the next wait does not end. */
  predicate Chained(targets: seq<u32>, clock: seq<u32>, from: nat, prev: u32, usDiv: u32, r: seq<nat>)
    requires usDiv > 0 && |r| <= |targets| && forall k :: 0 <= k < |r| ==> r[k] < |clock|
  {
    && (forall k :: 0 <= k < |r| ==>
          FirstReach(clock, StartOf(r, k, from), RefOf(clock, r, k, prev), usDiv, targets[k]) == Some(r[k]))
    && (|r| < |targets| ==>
          FirstReach(clock, StartOf(r, |r|, from), RefOf(clock, r, |r|, prev), usDiv, targets[|r|]) == None)
  }

  /**
   Every listed wait ends exactly where its own busy-wait, started after
   the previous exit and measured from the previous exit's reading, ends;
   a shorter list means the next wait never ends within the readings.
   */
  lemma {:induction false} WaitExitsChain(targets: seq<u32>, clock: seq<u32>, from: nat, prev: u32, usDiv: u32)
    requires usDiv > 0
    ensures Chained(targets, clock, from, prev, usDiv, WaitExits(targets, clock, from, prev, usDiv))
    decreases |targets|
  {
    var r := WaitExits(targets, clock, from, prev, usDiv);
    if |targets| > 0 {
      match FirstReach(clock, from, prev, usDiv, targets[0])
      case None =>
        assert r == [];
      case Some(j) =>
        var rest := WaitExits(targets[1..], clock, j + 1, clock[j], usDiv);
        assert r == [j] + rest;
        WaitExitsChain(targets[1..], clock, j + 1, clock[j], usDiv);
        ChainCons(targets, clock, from, prev, usDiv, j, rest);
    }
  }

  /** Putting the first wait's exit in front of a chained list for the remaining waits gives a chained list. */
  lemma ChainCons(targets: seq<u32>, clock: seq<u32>, from: nat, prev: u32, usDiv: u32, j: nat, rest: seq<nat>)
    requires usDiv > 0 && |targets| > 0 && j < |clock|
    requires FirstReach(clock, from, prev, usDiv, targets[0]) == Some(j)
    requires |rest| <= |targets| - 1 && forall k :: 0 <= k < |rest| ==> rest[k] < |clock|
    requires Chained(targets[1..], clock, j + 1, clock[j], usDiv, rest)
    ensures Chained(targets, clock, from, prev, usDiv, [j] + rest)
  {
    var r := [j] + rest;
    forall k | 0 <= k < |r|
      ensures FirstReach(clock, StartOf(r, k, from), RefOf(clock, r, k, prev), usDiv, targets[k]) == Some(r[k])
    {
      if k > 0 {
        ShiftWait(targets, clock, from, prev, usDiv, j, rest, k);
        assert r[k] == rest[k - 1];
      }
    }
    if |r| < |targets| {
      ShiftWait(targets, clock, from, prev, usDiv, j, rest, |r|);
    }
  }

  /** Wait `k` after the first exit `j` is wait `k - 1` of the remaining targets, started after `j` and measured from it. */
  lemma ShiftWait(targets: seq<u32>, clock: seq<u32>, from: nat, prev: u32, usDiv: u32, j: nat, rest: seq<nat>, k: nat)
    requires usDiv > 0 && j < |clock| && forall m :: 0 <= m < |rest| ==> rest[m] < |clock|
    requires 0 < k <= |rest| + 1 && k < |targets|
    ensures FirstReach(clock, StartOf([j] + rest, k, from), RefOf(clock, [j] + rest, k, prev), usDiv, targets[k])
            == FirstReach(clock, StartOf(rest, k - 1, j + 1), RefOf(clock, rest, k - 1, clock[j]), usDiv, targets[1..][k - 1])
  {
    ShiftChain(clock, [j] + rest, rest, j, k, from, prev);
    assert targets[k] == targets[1..][k - 1];
  }

  /** Wait `k` of a list with one more exit in front is wait `k - 1` of the rest. */
  lemma ShiftChain(clock: seq<u32>, r: seq<nat>, rest: seq<nat>, j: nat, k: nat, from: nat, prev: u32)
    requires r == [j] + rest && j < |clock| && 0 < k <= |r|
    requires forall m :: 0 <= m < |rest| ==> rest[m] < |clock|
    ensures StartOf(r, k, from) == StartOf(rest, k - 1, j + 1)
    ensures RefOf(clock, r, k, prev) == RefOf(clock, rest, k - 1, clock[j])
    ensures k < |r| ==> r[k] == rest[k - 1]
  {
    if k > 1 {
      assert r[k - 1] == rest[k - 2];
    }
  }

  /** When each wait of `ir_send_buf` ends: the first is measured from the entry reading `clock[0]`. */
  function Schedule(b: IrBuf, adj: TimAdj, pwmOk: nat -> bool, usDiv: u32, clock: seq<u32>): (exits: seq<nat>)
    requires Readable(b) && usDiv > 0 && |clock| >= 1
    ensures |exits| <= |Waits(Send(b, adj, pwmOk))|
    ensures forall k :: 0 <= k < |exits| ==> 1 <= exits[k] < |clock|
  {
    WaitExits(Waits(Send(b, adj, pwmOk)), clock, 1, clock[0], usDiv)
  }

  /**
   In a successful run, wait k ends at the first reading whose elapsed
   time since the end of wait k-1 (since entry, for k = 0) reaches
   `buf[k]` plus the pulse bias for even k or the space bias for odd k,
   all in `uint32_t` arithmetic; no earlier reading of that wait did.
   */
  lemma ScheduleHonoursTargets(b: IrBuf, adj: TimAdj, pwmOk: nat -> bool, usDiv: u32, clock: seq<u32>, k: nat)
    requires Readable(b) && b.length >= 0 && usDiv > 0 && |clock| >= 1
    requires AllOk(pwmOk, PwmCalls(b.length))
    requires k < |Schedule(b, adj, pwmOk, usDiv, clock)|
    ensures k < b.length
    ensures var exits := Schedule(b, adj, pwmOk, usDiv, clock);
            var since := if k == 0 then clock[0] else clock[exits[k - 1]];
            var start := if k == 0 then 1 else exits[k - 1] + 1;
            && Elapsed(clock[exits[k]], since, usDiv) >= Target(b, adj, k)
            && forall j :: start <= j < exits[k] ==> Elapsed(clock[j], since, usDiv) < Target(b, adj, k)
  {
    SendCounts(b, adj, pwmOk);
    var exits := Schedule(b, adj, pwmOk, usDiv, clock);
    var targets := Waits(Send(b, adj, pwmOk));
    WaitExitsChain(targets, clock, 1, clock[0], usDiv);
    assert Chained(targets, clock, 1, clock[0], usDiv, exits);
    assert targets[k] == Target(b, adj, k);
    assert FirstReach(clock, StartOf(exits, k, 1), RefOf(clock, exits, k, clock[0]), usDiv, targets[k]) == Some(exits[k]);
  }
}
