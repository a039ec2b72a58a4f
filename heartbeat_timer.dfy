/** The heartbeat timer (core/src/gossip/heartbeat.rs, `HeartbeatTimer`):
    the wait period built from an interval in milliseconds, the time
    quantum that spreads one period over the known peers, and the
    round-robin index of the timing loop. Sleeping and the job channel are
    left to the caller: each pass of the loop reports the heartbeat job it
    enqueues and the quantum it sleeps. */
module HeartbeatTimer {
  import opened Wrappers
  import opened Scalars
  import opened GossipTypes
  import Heartbeat

  const NanosPerSec: nat := Heartbeat.NanosPerSec
  const TwoTo32: nat := Heartbeat.TwoTo32

  type U32 = x: nat | x < TwoTo32

  /** `std::time::Duration`: whole seconds and nanoseconds. */
  datatype Duration = Duration(secs: U64, nanos: U32)

  /** The sub-second part is below one second, as `Duration` keeps it. */
  predicate Normal(d: Duration)
  {
    d.nanos < NanosPerSec
  }

  function TotalNanos(d: Duration): nat
  {
    d.secs * NanosPerSec + d.nanos
  }

  /** A narrowing `as u32` cast: the low 32 bits. */
  function AsU32(x: nat): (r: U32)
    ensures x < TwoTo32 ==> r == x
  {
    x % TwoTo32
  }

  /** `Duration::new`: whole seconds in `nanos` are carried into `secs`;
      `None` is the panic when that overflows the seconds. */
  function NewDuration(secs: U64, nanos: U32): (r: Option<Duration>)
    ensures r.None? <==> secs + nanos / NanosPerSec >= TwoTo64
    ensures r.Some? ==> Normal(r.value) && TotalNanos(r.value) == secs * NanosPerSec + nanos
    ensures nanos < NanosPerSec ==> r == Some(Duration(secs, nanos))
  {
    if nanos < NanosPerSec then Some(Duration(secs, nanos))
    else if secs + nanos / NanosPerSec < TwoTo64 then
      assert (secs + nanos / NanosPerSec) * NanosPerSec + nanos % NanosPerSec == secs * NanosPerSec + nanos;
      Some(Duration(secs + nanos / NanosPerSec, nanos % NanosPerSec))
    else None
  }

  /** The wait period of `HeartbeatTimer::new`: `interval_ms / 1000`
      seconds and `(interval_ms % 1000 * NANOS_PER_MILLI) as u32`
      nanoseconds. */
  function WaitPeriod(intervalMs: U64): Option<Duration>
  {
    NewDuration(intervalMs / 1000, AsU32(intervalMs % 1000 * Heartbeat.NanosPerMilli))
  }

  /** The narrowing cast never loses bits, the nanoseconds stay below one
      second, and the period is exactly the interval. */
  lemma WaitPeriodExact(intervalMs: U64)
    ensures WaitPeriod(intervalMs) == Some(Duration(intervalMs / 1000, intervalMs % 1000 * Heartbeat.NanosPerMilli))
    ensures TotalNanos(WaitPeriod(intervalMs).value) == intervalMs * Heartbeat.NanosPerMilli
  {
    var ms := intervalMs % 1000;
    assert ms * Heartbeat.NanosPerMilli <= 999 * Heartbeat.NanosPerMilli;
    assert (intervalMs / 1000) * NanosPerSec + ms * Heartbeat.NanosPerMilli
        == ((intervalMs / 1000) * 1000 + ms) * Heartbeat.NanosPerMilli;
  }

  /** The three-second heartbeat interval waits three seconds. */
  lemma HeartbeatPeriod()
    ensures WaitPeriod(Heartbeat.HeartbeatIntervalMs) == Some(Duration(3, 0))
  {
    WaitPeriodExact(Heartbeat.HeartbeatIntervalMs);
  }

  /** `Duration / u32`, i.e. `checked_div(rhs).expect(..)`: the seconds
      are divided, their remainder is carried into the nanoseconds, and
      `None` is the panic on a zero divisor. */
  function DivDuration(d: Duration, rhs: U32): Option<Duration>
  {
    if rhs == 0 then None
    else
      DivNoLarger(d.secs, rhs);
      DivNoLarger(d.nanos, rhs);
      var secs := d.secs / rhs;
      var extraSecs := d.secs % rhs;
      var nanos := d.nanos / rhs;
      var extraNanos := d.nanos % rhs;
      DivNoLarger(extraSecs * NanosPerSec + extraNanos, rhs);
      var carried := AsU32((extraSecs * NanosPerSec + extraNanos) / rhs);
      NewDuration(secs, AsU32(nanos + carried))
  }

  /** Dividing a duration by a positive `u32` gives the floor of its
      nanoseconds over the divisor, with nothing wrapped, and a zero
      divisor panics. */
  lemma DivDurationFloor(d: Duration, rhs: U32)
    requires Normal(d)
    ensures rhs == 0 <==> DivDuration(d, rhs).None?
    ensures rhs > 0 ==> Normal(DivDuration(d, rhs).value) && TotalNanos(DivDuration(d, rhs).value) == TotalNanos(d) / rhs
  {
    if rhs > 0 {
      DivDurationParts(d, rhs);
      var q := DivDuration(d, rhs).value;
      DivTotal(d.secs, d.nanos, rhs);
      assert q.secs * NanosPerSec + q.nanos == TotalNanos(d) / rhs;
    }
  }

  /** The quotient's seconds and nanoseconds, with no cast wrapping. */
  lemma DivDurationParts(d: Duration, r: U32)
    requires Normal(d) && r > 0
    ensures d.nanos / r + ((d.secs % r) * NanosPerSec + d.nanos % r) / r < NanosPerSec
    ensures DivDuration(d, r).Some? && DivDuration(d, r).value.secs == d.secs / r
    ensures DivDuration(d, r).value.nanos == d.nanos / r + ((d.secs % r) * NanosPerSec + d.nanos % r) / r
  {
    var s, n := d.secs, d.nanos;
    DivNoLarger(s, r);
    DivNoLarger(n, r);
    var q, e, a, b := s / r, s % r, n / r, n % r;
    DivNoLarger(e * NanosPerSec + b, r);
    var c := (e * NanosPerSec + b) / r;
    SumBelow(n, r, e);
    CastsExact(a, c);
    assert DivDuration(d, r) == NewDuration(q, a + c);
  }

  lemma CastsExact(a: nat, c: nat)
    requires a + c < NanosPerSec
    ensures AsU32(c) == c && AsU32(a + AsU32(c)) == a + c
  {
  }

  /** The seconds and nanoseconds of the quotient add up to the floor of
      the total. */
  lemma DivTotal(s: nat, n: nat, r: nat)
    requires r > 0
    ensures (s / r) * NanosPerSec + n / r + ((s % r) * NanosPerSec + n % r) / r == (s * NanosPerSec + n) / r
  {
    Regroup(s, n, r);
    DivShift((s / r) * NanosPerSec + n / r, (s % r) * NanosPerSec + n % r, r);
  }

  lemma DivNoLarger(x: nat, r: nat)
    requires r > 0
    ensures 0 <= x / r <= x && 0 <= x % r < r && x % r <= x
  {
    if x / r > x {
      MulMono(1, r, x / r);
    }
  }

  lemma MulMono(x: nat, y: nat, k: nat)
    requires x <= y
    ensures x * k <= y * k
  {
  }

  /** The remainders carried into the nanoseconds divide to less than a
      second. */
  lemma CarryBelow(e: nat, b: nat, r: nat)
    requires e < r && b < NanosPerSec
    ensures (e * NanosPerSec + b) / r < NanosPerSec
  {
    MulMono(e + 1, r, NanosPerSec);
    DivBelow(e * NanosPerSec + b, r, NanosPerSec);
  }

  /** The nanoseconds of the quotient stay below a second. */
  lemma SumBelow(n: nat, r: nat, e: nat)
    requires 0 < r && e < r && n < NanosPerSec
    ensures n / r + (e * NanosPerSec + n % r) / r < NanosPerSec
  {
    var a, b := n / r, n % r;
    var y := e * NanosPerSec + b;
    var c := y / r;
    assert r * c <= y;
    assert r * a + b == n;
    MulDistrib(r, a, c);
    assert r * (a + c) <= n + e * NanosPerSec;
    MulMono(e + 1, r, NanosPerSec);
    MulCancelBelow(r, a + c, NanosPerSec);
  }

  lemma MulDistrib(r: nat, a: nat, c: nat)
    ensures r * (a + c) == r * a + r * c
  {
  }

  /** Seconds and nanoseconds split by the divisor. */
  lemma Regroup(s: nat, n: nat, r: nat)
    requires r > 0
    ensures s * NanosPerSec + n == r * ((s / r) * NanosPerSec + n / r) + ((s % r) * NanosPerSec + n % r)
  {
    var q, e, a, b := s / r, s % r, n / r, n % r;
    assert s * NanosPerSec == (r * q + e) * NanosPerSec;
    MulDistrib(r, q * NanosPerSec, a);
  }

  /** A quotient is below `k` when the dividend is below `r * k`. */
  lemma DivBelow(x: nat, r: nat, k: nat)
    requires r > 0 && x < r * k
    ensures x / r < k
  {
    if x / r >= k {
      MulMono(k, x / r, r);
    }
  }

  lemma MulCancelBelow(r: nat, x: nat, k: nat)
    requires r > 0 && r * x < r * k
    ensures x < k
  {
    if x >= k {
      MulMono(k, x, r);
    }
  }

  /** Whole multiples of the divisor come out of the quotient unchanged. */
  lemma DivShift(x: nat, y: nat, r: nat)
    requires r > 0
    ensures (r * x + y) / r == x + y / r
  {
    var q, m := y / r, y % r;
    MulDistrib(r, x, q);
    DivUnique(r * x + y, r, x + q, m);
  }

  /** The quotient is the only multiplier that leaves a remainder below
      the divisor. */
  lemma DivUnique(n: nat, r: nat, q: nat, m: nat)
    requires m < r && n == r * q + m
    ensures n / r == q
  {
    var k, m' := n / r, n % r;
    if k < q {
      MulMono(k + 1, q, r);
      MulDistrib(r, k, 1);
    } else if k > q {
      MulMono(q + 1, k, r);
      MulDistrib(r, q, 1);
    }
  }

  /** The job the loop enqueues at position `index` of the known peers:
      none past the end of the peer list or for the local peer. */
  function NextPeer(keys: seq<WrappedPeerId>, index: nat, localPeer: WrappedPeerId): (r: Option<WrappedPeerId>)
    ensures r.Some? <==> index < |keys| && keys[index] != localPeer
    ensures r.Some? ==> r.value == keys[index]
  {
    if index < |keys| && keys[index] != localPeer then Some(keys[index]) else None
  }

  /** `peer_index += 1`, back to 0 once it reaches the peer count (and
      not `(index + 1) % count`, so a shrunk list restarts at the front). */
  function NextIndex(index: nat, peerCount: nat): (r: nat)
    ensures r == 0 || r == index + 1
    ensures peerCount > 0 ==> r < peerCount
    ensures r == 0 <==> index + 1 >= peerCount
  {
    if index + 1 >= peerCount then 0 else index + 1
  }

  /** The time quantum one pass sleeps: the period over the peer count,
      narrowed to `u32`; `None` is the divide-by-zero panic. */
  function Quantum(waitPeriod: Duration, peerCount: nat): Option<Duration>
  {
    DivDuration(waitPeriod, AsU32(peerCount))
  }

  /** One pass per peer sleeps at most one wait period in total, and loses
      less than one nanosecond per peer to rounding. */
  lemma QuantaFitPeriod(waitPeriod: Duration, peerCount: nat)
    requires Normal(waitPeriod) && 0 < peerCount < TwoTo32
    ensures Quantum(waitPeriod, peerCount).Some?
    ensures var t := TotalNanos(Quantum(waitPeriod, peerCount).value);
      t * peerCount <= TotalNanos(waitPeriod) < (t + 1) * peerCount
  {
    DivDurationFloor(waitPeriod, peerCount);
    FloorBounds(TotalNanos(waitPeriod), peerCount);
  }

  lemma FloorBounds(x: nat, r: nat)
    requires r > 0
    ensures (x / r) * r <= x < (x / r + 1) * r
  {
    DivNoLarger(x, r);
    MulDistrib(r, x / r, 1);
  }

  datatype TimerError = TimerFailed(reason: string) | DivideByZero

  /** The state of the timing loop: the round-robin index and what the
      loop has handed out so far. */
  class TimerLoop {
    var peerIndex: nat
    var jobs: seq<WrappedPeerId>
    var slept: seq<Duration>

    constructor ()
      ensures peerIndex == 0 && jobs == [] && slept == []
    {
      peerIndex := 0;
      jobs := [];
      slept := [];
    }

    /** One pass of `execution_loop` over the known peers `keys` (in map
        iteration order): enqueue a heartbeat for the peer at the index
        unless it is the local peer (a closed job channel fails the timer),
        advance the index, and sleep one quantum. */
    method Pass(keys: seq<WrappedPeerId>, localPeer: WrappedPeerId, waitPeriod: Duration, channelOpen: bool, channelError: string)
      returns (r: Result<(), TimerError>)
      requires Normal(waitPeriod)
      modifies this
      ensures var next := NextPeer(keys, old(peerIndex), localPeer);
        if next.Some? && !channelOpen then
          r == Failure(TimerFailed(channelError)) && peerIndex == old(peerIndex) && jobs == old(jobs) && slept == old(slept)
        else
          && jobs == old(jobs) + (if next.Some? then [next.value] else [])
          && peerIndex == NextIndex(old(peerIndex), |keys|)
          && (r.Failure? <==> AsU32(|keys|) == 0)
          && (r.Failure? ==> r.error == DivideByZero && slept == old(slept))
          && (r.Success? ==> Quantum(waitPeriod, |keys|).Some? && slept == old(slept) + [Quantum(waitPeriod, |keys|).value])
    {
      var peerCount := |keys|;
      var nextPeer := NextPeer(keys, peerIndex, localPeer);
      if nextPeer.Some? {
        if !channelOpen {
          return Failure(TimerFailed(channelError));
        }
        jobs := jobs + [nextPeer.value];
      }
      peerIndex := peerIndex + 1;
      if peerIndex >= peerCount {
        peerIndex := 0;
      }
      DivDurationFloor(waitPeriod, AsU32(peerCount));
      var quantum := DivDuration(waitPeriod, AsU32(peerCount));
      if quantum.None? {
        return Failure(DivideByZero);
      }
      slept := slept + [quantum.value];
      return Success(());
    }
  }

  /** The jobs of consecutive passes over the snapshots `views` of the
      known peers, starting at `index`. */
  function Jobs(views: seq<seq<WrappedPeerId>>, index: nat, localPeer: WrappedPeerId): seq<WrappedPeerId>
    decreases |views|
  {
    if views == [] then []
    else
      var next := NextPeer(views[0], index, localPeer);
      (if next.Some? then [next.value] else []) + Jobs(views[1..], NextIndex(index, |views[0]|), localPeer)
  }

  /** The peers other than the local one, in order. */
  function OthersOf(keys: seq<WrappedPeerId>, localPeer: WrappedPeerId): (r: seq<WrappedPeerId>)
    ensures forall id :: id in r <==> id in keys && id != localPeer
  {
    if keys == [] then []
    else (if keys[0] != localPeer then [keys[0]] else []) + OthersOf(keys[1..], localPeer)
  }

  /** `n` passes over an unchanged list of `n` peers, starting at the
      front, heartbeat every peer but the local one exactly once, in list
      order, and bring the index back to the front. */
  lemma RoundRobin(keys: seq<WrappedPeerId>, localPeer: WrappedPeerId)
    ensures Jobs(seq(|keys|, _ => keys), 0, localPeer) == OthersOf(keys, localPeer)
  {
    RoundFrom(keys, 0, localPeer);
    assert keys[0..] == keys;
  }

  lemma {:induction false} RoundFrom(keys: seq<WrappedPeerId>, i: nat, localPeer: WrappedPeerId)
    requires i <= |keys|
    ensures Jobs(seq(|keys| - i, _ => keys), i, localPeer) == OthersOf(keys[i..], localPeer)
    decreases |keys| - i
  {
    if i < |keys| {
      var views := seq(|keys| - i, _ => keys);
      RoundFrom(keys, i + 1, localPeer);
      assert views[1..] == seq(|keys| - (i + 1), _ => keys);
      assert views[0] == keys;
      if i + 1 < |keys| {
        assert NextIndex(i, |keys|) == i + 1;
      } else {
        assert views[1..] == [];
      }
      assert keys[i..][1..] == keys[i + 1..];
    }
  }

  /** The timing loop over a finite run of snapshots, with the job channel
      open throughout and at least one known peer (the local one) in each
      snapshot, so no pass panics. */
  method ExecutionLoop(timer: TimerLoop, views: seq<seq<WrappedPeerId>>, localPeer: WrappedPeerId, waitPeriod: Duration)
    requires Normal(waitPeriod)
    requires forall k | 0 <= k < |views| :: 0 < |views[k]| < TwoTo32
    modifies timer
    ensures timer.jobs == old(timer.jobs) + Jobs(views, old(timer.peerIndex), localPeer)
    ensures |timer.slept| == |old(timer.slept)| + |views|
    ensures |views| > 0 ==> timer.peerIndex < |views[|views| - 1]|
  {
    var k := 0;
    ghost var done: seq<WrappedPeerId> := [];
    while k < |views|
      invariant k <= |views|
      invariant timer.jobs == old(timer.jobs) + done
      invariant done + Jobs(views[k..], timer.peerIndex, localPeer) == Jobs(views, old(timer.peerIndex), localPeer)
      invariant |timer.slept| == |old(timer.slept)| + k
      invariant k > 0 ==> timer.peerIndex < |views[k - 1]|
    {
      ghost var step := NextPeer(views[k], timer.peerIndex, localPeer);
      ghost var stepJobs := if step.Some? then [step.value] else [];
      assert views[k..][0] == views[k] && views[k..][1..] == views[k + 1..];
      JobsStep(done, stepJobs, Jobs(views[k + 1..], NextIndex(timer.peerIndex, |views[k]|), localPeer));
      var r := timer.Pass(views[k], localPeer, waitPeriod, true, "");
      done := done + stepJobs;
      k := k + 1;
    }
  }

  lemma JobsStep(done: seq<WrappedPeerId>, step: seq<WrappedPeerId>, rest: seq<WrappedPeerId>)
    ensures done + (step + rest) == (done + step) + rest
  {
  }
}
