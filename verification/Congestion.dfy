/** The integer part of uTP congestion control (BEP 29): delay baseline,
    round-trip estimate, timeout and bytes in flight. Times are nanoseconds. */
module Congestion {
  import opened Prelude

  const BASE_DELAY_WINDOW: nat := 120_000_000_000
  const MIN_TIMEOUT_MS: u32 := 500
  const INITIAL_TIMEOUT_MS: u32 := 1000

  datatype DelaySample = DelaySample(time: int, value: u32)

  /** The state of the controller. */
  datatype Cc = Cc(
    curWindow: u32,
    baseDelay: u32,
    ourDelay: u32,
    replyMicro: u32,
    rtt: u32,
    rttVar: u32,
    timeout: u32,
    consecutiveTimeouts: nat,
    delayHistory: seq<DelaySample>)
  {
    function AddInFlight(bytes: u32): Cc {
      this.(curWindow := SaturatingAdd(curWindow, bytes))
    }

    function RemoveInFlight(bytes: u32): Cc {
      this.(curWindow := SaturatingSub(curWindow, bytes))
    }

    function UpdateDelay(replyMicro: u32, now: int): Cc {
      var h := Prune(delayHistory + [DelaySample(now, replyMicro)], now - BASE_DELAY_WINDOW);
      var base := MinValue(h);
      this.(replyMicro := replyMicro, delayHistory := h, baseDelay := base,
            ourDelay := SaturatingSub(replyMicro, base))
    }

    function UpdateRtt(packetRtt: u32): Cc {
      EstimateRange(rtt, rttVar, packetRtt);
      var newRtt: u32 := if rtt == 0 then packetRtt else NewRtt(rtt, packetRtt);
      var newVar: u32 := if rtt == 0 then packetRtt / 2 else NewRttVar(rtt, rttVar, packetRtt);
      this.(rtt := newRtt, rttVar := newVar, timeout := TimeoutOf(newRtt, newVar), consecutiveTimeouts := 0)
    }

    /** Exponential backoff, saturating. */
    function OnTimeout(): Cc {
      var n := consecutiveTimeouts + 1;
      this.(consecutiveTimeouts := n, timeout := Min(timeout * Pow2(Min(n, 6)), U32_MAX))
    }
  }

  const INITIAL_CC := Cc(0, U32_MAX, 0, 0, 0, 0, INITIAL_TIMEOUT_MS, 0, [])

  function SaturatingAdd(a: u32, b: u32): u32 {
    Min(a + b, U32_MAX)
  }

  function SaturatingSub(a: u32, b: u32): u32 {
    Max(a - b, 0)
  }

  /** Division that truncates towards zero, as Rust's does. */
  function TruncDiv(a: int, b: int): int
    requires b > 0
  {
    if a >= 0 then a / b else -((-a) / b)
  }

  /** Drop samples from the front while they are older than `cutoff`. */
  function Prune(h: seq<DelaySample>, cutoff: int): seq<DelaySample> {
    if h != [] && h[0].time < cutoff then Prune(h[1..], cutoff) else h
  }

  function MinValue(h: seq<DelaySample>): u32 {
    if h == [] then U32_MAX else Min(h[0].value, MinValue(h[1..]))
  }

  function NewRtt(rtt: u32, packetRtt: u32): int {
    Max(0, rtt + TruncDiv(packetRtt - rtt, 8))
  }

  function NewRttVar(rtt: u32, rttVar: u32, packetRtt: u32): int {
    var delta := Max(rtt - packetRtt, packetRtt - rtt);
    Max(0, rttVar + TruncDiv(delta - rttVar, 4))
  }

  /** The timeout formula in u32 arithmetic that wraps. */
  function TimeoutOf(rtt: u32, rttVar: u32): u32 {
    Max((rtt + rttVar * 4) % 0x1_0000_0000, MIN_TIMEOUT_MS)
  }

  /** The estimates stay between what they were and what was measured. */
  lemma EstimateRange(rtt: u32, rttVar: u32, packetRtt: u32)
    ensures Min(rtt, packetRtt) <= NewRtt(rtt, packetRtt) <= Max(rtt, packetRtt)
    ensures 0 <= NewRttVar(rtt, rttVar, packetRtt) <= Max(rttVar, Max(rtt, packetRtt))
  {}

  class UtpCongestionControl {
    var curWindow: u32
    var baseDelay: u32
    var ourDelay: u32
    var replyMicro: u32
    var rtt: u32
    var rttVar: u32
    var timeout: u32
    var consecutiveTimeouts: nat
    var delayHistory: seq<DelaySample>

    ghost function State(): Cc
      reads this
    {
      Cc(curWindow, baseDelay, ourDelay, replyMicro, rtt, rttVar, timeout, consecutiveTimeouts, delayHistory)
    }

    constructor ()
      ensures State() == INITIAL_CC
    {
      curWindow, baseDelay, ourDelay, replyMicro := 0, U32_MAX, 0, 0;
      rtt, rttVar, timeout := 0, 0, INITIAL_TIMEOUT_MS;
      consecutiveTimeouts, delayHistory := 0, [];
    }

    method AddInFlight(bytes: u32)
      modifies this
      ensures State() == old(State()).AddInFlight(bytes)
    {
      curWindow := SaturatingAdd(curWindow, bytes);
    }

    method RemoveInFlight(bytes: u32)
      modifies this
      ensures State() == old(State()).RemoveInFlight(bytes)
    {
      curWindow := SaturatingSub(curWindow, bytes);
    }

    method UpdateDelay(replyMicro: u32, now: int)
      modifies this
      ensures State() == old(State()).UpdateDelay(replyMicro, now)
    {
      this.replyMicro := replyMicro;
      delayHistory := delayHistory + [DelaySample(now, replyMicro)];
      var cutoff := now - BASE_DELAY_WINDOW;
      while delayHistory != [] && delayHistory[0].time < cutoff
        invariant Prune(delayHistory, cutoff)
               == Prune(old(delayHistory) + [DelaySample(now, replyMicro)], cutoff)
        invariant State().(delayHistory := []) == old(State()).(delayHistory := [], replyMicro := replyMicro)
        decreases |delayHistory|
      {
        delayHistory := delayHistory[1..];
      }
      baseDelay := MinValue(delayHistory);
      ourDelay := SaturatingSub(replyMicro, baseDelay);
    }

    method UpdateRtt(packetRtt: u32)
      modifies this
      ensures State() == old(State()).UpdateRtt(packetRtt)
    {
      if rtt == 0 {
        rtt := packetRtt;
        rttVar := packetRtt / 2;
      } else {
        EstimateRange(rtt, rttVar, packetRtt);
        rttVar := NewRttVar(rtt, rttVar, packetRtt);
        rtt := NewRtt(rtt, packetRtt);
      }
      timeout := TimeoutOf(rtt, rttVar);
      consecutiveTimeouts := 0;
    }

    method OnTimeout()
      modifies this
      ensures State() == old(State()).OnTimeout()
    {
      consecutiveTimeouts := consecutiveTimeouts + 1;
      timeout := Min(timeout * Pow2(Min(consecutiveTimeouts, 6)), U32_MAX);
    }
  }

  // ---------------------------------------------------------------- runs

  ghost predicate NonDecreasing(samples: seq<DelaySample>) {
    forall i, j :: 0 <= i < j < |samples| ==> samples[i].time <= samples[j].time
  }

  /** The controller after it was given the samples, oldest first. */
  ghost function AfterDelays(c: Cc, samples: seq<DelaySample>): Cc {
    if samples == [] then c
    else
      var last := samples[|samples| - 1];
      AfterDelays(c, samples[..|samples| - 1]).UpdateDelay(last.value, last.time)
  }

  /** The samples at or after `cutoff`. */
  ghost function Recent(samples: seq<DelaySample>, cutoff: int): seq<DelaySample> {
    if samples == [] then []
    else (if samples[0].time < cutoff then [] else [samples[0]]) + Recent(samples[1..], cutoff)
  }

  lemma {:induction false} RecentSnoc(h: seq<DelaySample>, s: DelaySample, cutoff: int)
    ensures Recent(h + [s], cutoff) == Recent(h, cutoff) + (if s.time < cutoff then [] else [s])
  {
    if h == [] {
      assert h + [s] == [s] && [s][1..] == [];
    } else {
      var head := if h[0].time < cutoff then [] else [h[0]];
      assert (h + [s])[1..] == h[1..] + [s] && (h + [s])[0] == h[0];
      assert Recent(h + [s], cutoff) == head + Recent(h[1..] + [s], cutoff);
      assert Recent(h, cutoff) == head + Recent(h[1..], cutoff);
      hide Recent;
      RecentSnoc(h[1..], s, cutoff);
    }
  }

  lemma {:induction false} RecentTwice(h: seq<DelaySample>, early: int, late: int)
    requires early <= late
    ensures Recent(Recent(h, early), late) == Recent(h, late)
  {
    if h != [] {
      RecentTwice(h[1..], early, late);
      var r := Recent(h[1..], early);
      assert ([h[0]] + r)[1..] == r;
      assert Recent(h, early) == if h[0].time < early then r else [h[0]] + r;
    }
  }

  /** With samples in time order, dropping old ones from the front drops all old ones. */
  lemma {:induction false} PruneIsRecent(h: seq<DelaySample>, cutoff: int)
    requires NonDecreasing(h)
    ensures Prune(h, cutoff) == Recent(h, cutoff)
  {
    if h != [] {
      if h[0].time < cutoff {
        PruneIsRecent(h[1..], cutoff);
      } else {
        assert forall i :: 0 < i < |h| ==> h[0].time <= h[i].time;
        AllRecent(h, cutoff);
      }
    }
  }

  lemma {:induction false} AllRecent(h: seq<DelaySample>, cutoff: int)
    requires forall i :: 0 <= i < |h| ==> h[i].time >= cutoff
    ensures Recent(h, cutoff) == h
  {
    if h != [] {
      AllRecent(h[1..], cutoff);
    }
  }

  ghost predicate Within(h: seq<DelaySample>, lo: int, hi: int) {
    forall i :: 0 <= i < |h| ==> lo <= h[i].time <= hi
  }

  lemma {:induction false} RecentOrdered(h: seq<DelaySample>, cutoff: int, lo: int, hi: int)
    requires NonDecreasing(h) && Within(h, lo, hi)
    ensures NonDecreasing(Recent(h, cutoff)) && Within(Recent(h, cutoff), lo, hi)
  {
    if h != [] {
      assert NonDecreasing(h[1..]) && Within(h[1..], h[0].time, hi);
      RecentOrdered(h[1..], cutoff, h[0].time, hi);
      var r := Recent(h[1..], cutoff);
      assert Recent(h, cutoff) == if h[0].time < cutoff then r else [h[0]] + r;
      hide Recent;
    }
  }

  /** After any samples in time order, the history is exactly the samples of the
      last 120 seconds and the baseline is their minimum. */
  lemma {:induction false} BaseDelayExact(c: Cc, samples: seq<DelaySample>)
    requires c.delayHistory == [] && samples != [] && NonDecreasing(samples)
    ensures var window := Recent(samples, samples[|samples| - 1].time - BASE_DELAY_WINDOW);
            && AfterDelays(c, samples).delayHistory == window
            && AfterDelays(c, samples).baseDelay == MinValue(window)
  {
    var n := |samples| - 1;
    var front, last := samples[..n], samples[n];
    var before := AfterDelays(c, front).delayHistory;
    hide Recent, Prune, MinValue;
    assert AfterDelays(c, samples).delayHistory == Prune(before + [last], last.time - BASE_DELAY_WINDOW);
    assert AfterDelays(c, samples).baseDelay == MinValue(AfterDelays(c, samples).delayHistory);
    assert front == [] ==> before == front;
    hide AfterDelays;
    assert samples == front + [last];
    assert NonDecreasing(front);
    assert front != [] ==> Within(front, front[0].time, last.time) by {
      assert forall i :: 0 <= i < n ==> samples[i] == front[i];
    }
    hide NonDecreasing;
    if front != [] {
      BaseDelayExact(c, front);
      RecentOrdered(front, front[n - 1].time - BASE_DELAY_WINDOW, front[0].time, last.time);
      RecentTwice(front, front[n - 1].time - BASE_DELAY_WINDOW, last.time - BASE_DELAY_WINDOW);
    }
    OrderedSnoc(before, last, samples[0].time);
    DelayWindow(front, before, last);
  }

  lemma OrderedSnoc(before: seq<DelaySample>, last: DelaySample, lo: int)
    requires NonDecreasing(before) && Within(before, lo, last.time)
    ensures NonDecreasing(before + [last])
  {}

  /** One update of a history that already lost some samples too old to matter. */
  lemma DelayWindow(front: seq<DelaySample>, before: seq<DelaySample>, last: DelaySample)
    requires NonDecreasing(before + [last])
    requires Recent(before, last.time - BASE_DELAY_WINDOW) == Recent(front, last.time - BASE_DELAY_WINDOW)
    ensures Prune(before + [last], last.time - BASE_DELAY_WINDOW)
         == Recent(front + [last], last.time - BASE_DELAY_WINDOW)
  {
    RecentSnoc(front, last, last.time - BASE_DELAY_WINDOW);
    RecentSnoc(before, last, last.time - BASE_DELAY_WINDOW);
    PruneIsRecent(before + [last], last.time - BASE_DELAY_WINDOW);
  }

  /** The minimum really is the least sample. */
  lemma {:induction false} MinValueLeast(h: seq<DelaySample>)
    ensures forall i :: 0 <= i < |h| ==> MinValue(h) <= h[i].value
    ensures h != [] ==> exists i :: 0 <= i < |h| && h[i].value == MinValue(h)
  {
    if h != [] {
      MinValueLeast(h[1..]);
      if MinValue(h) == h[0].value {
      } else {
        var i :| 0 <= i < |h| - 1 && h[1..][i].value == MinValue(h[1..]);
        assert h[i + 1].value == MinValue(h);
      }
    }
  }

  ghost function AfterRtts(c: Cc, samples: seq<u32>): Cc {
    if samples == [] then c
    else AfterRtts(c, samples[..|samples| - 1]).UpdateRtt(samples[|samples| - 1])
  }

  /** With all samples at most `m`, the estimates stay at most `m`, and if `5 * m`
      fits in a u32 the timeout is computed without overflow and is in range. */
  lemma {:induction false} RttBounded(c: Cc, samples: seq<u32>, m: u32)
    requires c.rtt <= m && c.rttVar <= m
    requires forall i :: 0 <= i < |samples| ==> samples[i] <= m
    ensures var c' := AfterRtts(c, samples);
            && c'.rtt <= m && c'.rttVar <= m
            && (samples != [] && 5 * m <= U32_MAX ==>
                  && c'.timeout == Max(c'.rtt + 4 * c'.rttVar, MIN_TIMEOUT_MS)
                  && MIN_TIMEOUT_MS <= c'.timeout <= Max(MIN_TIMEOUT_MS, 5 * m))
  {
    if samples != [] {
      var n := |samples| - 1;
      RttBounded(c, samples[..n], m);
      RttStepBounded(AfterRtts(c, samples[..n]), samples[n], m);
    }
  }

  lemma RttStepBounded(c: Cc, sample: u32, m: u32)
    requires c.rtt <= m && c.rttVar <= m && sample <= m
    ensures var c' := c.UpdateRtt(sample);
            && c'.rtt <= m && c'.rttVar <= m
            && (5 * m <= U32_MAX ==>
                  && c'.timeout == Max(c'.rtt + 4 * c'.rttVar, MIN_TIMEOUT_MS)
                  && MIN_TIMEOUT_MS <= c'.timeout <= Max(MIN_TIMEOUT_MS, 5 * m))
  {
    EstimateRange(c.rtt, c.rttVar, sample);
    hide NewRtt, NewRttVar;
  }

  ghost function Distance(rtt: u32, sample: u32): nat {
    Max(rtt - sample, sample - rtt)
  }

  ghost function Repeat(sample: u32, n: nat): seq<u32> {
    seq<u32>(n, _ => sample)
  }

  /** One update moves a positive estimate an eighth of the way, rounded down. */
  lemma RttMoves(c: Cc, sample: u32)
    requires c.rtt > 0 && sample > 0
    ensures c.UpdateRtt(sample).rtt > 0
    ensures Distance(c.UpdateRtt(sample).rtt, sample) == Distance(c.rtt, sample) - Distance(c.rtt, sample) / 8
  {}

  /** Under a constant non-zero sample the estimate comes within 7 of it, after
      at most as many updates as it was away, and stays there. */
  lemma {:induction false} RttConverges(c: Cc, sample: u32, n: nat)
    requires sample > 0 && c.rtt > 0
    ensures AfterRtts(c, Repeat(sample, n)).rtt > 0
    ensures Distance(AfterRtts(c, Repeat(sample, n)).rtt, sample) <= Max(7, Distance(c.rtt, sample) - n)
  {
    if n > 0 {
      assert Repeat(sample, n)[..n - 1] == Repeat(sample, n - 1);
      RttConverges(c, sample, n - 1);
      RttMoves(AfterRtts(c, Repeat(sample, n - 1)), sample);
    }
  }

  /** From a fresh controller the first sample is taken as it is. */
  lemma FirstRtt(c: Cc, sample: u32, n: nat)
    requires sample > 0 && c.rtt == 0 && n > 0
    ensures AfterRtts(c, Repeat(sample, n)).rtt == sample
    decreases n
  {
    assert Repeat(sample, n)[..n - 1] == Repeat(sample, n - 1);
    if n > 1 {
      FirstRtt(c, sample, n - 1);
    } else {
      assert Repeat(sample, 0) == [];
    }
  }

  // ---------------------------------------------------------------- repeated timeouts

  /** The controller after `n` timeouts in a row. */
  ghost function AfterTimeouts(c: Cc, n: nat): Cc {
    if n == 0 then c else AfterTimeouts(c, n - 1).OnTimeout()
  }

  /** How often `n` timeouts in a row double the timeout: 1 + 2 + ... + 6 + 6 + ... */
  function Doublings(n: nat): nat {
    if n <= 6 then n * (n + 1) / 2 else 21 + 6 * (n - 6)
  }

  lemma {:induction false} Pow2Add(a: nat, b: nat)
    ensures Pow2(a + b) == Pow2(a) * Pow2(b)
    ensures Pow2(b) > 0
  {
    if b > 0 {
      Pow2Add(a, b - 1);
    }
  }

  lemma Grows(a: nat, b: nat, y: nat)
    requires a <= b && y > 0
    ensures a <= a * y <= b * y
  {}

  /** Saturating in the middle of a product makes no difference. */
  lemma SaturateOnce(x: nat, y: nat, cap: nat)
    requires y > 0
    ensures Min(Min(x, cap) * y, cap) == Min(x * y, cap)
  {
    if x > cap {
      Grows(cap, x, y);
    } else {
    }
  }

  lemma DoublingsStep(n: nat)
    requires n > 0
    ensures Doublings(n) == Doublings(n - 1) + Min(n, 6)
  {
    if n == 1 || n == 2 || n == 3 || n == 4 || n == 5 || n == 6 {
    }
  }

  lemma Product(x: nat, y: nat, z: nat)
    ensures (x * y) * z == x * (y * z)
  {}

  lemma Backoff(timeout: u32, d: nat, k: nat)
    ensures Min(Min(timeout * Pow2(d), U32_MAX) * Pow2(k), U32_MAX) == Min(timeout * Pow2(d + k), U32_MAX)
  {
    Pow2Add(d, 0);
    Pow2Add(d, k);
    Pow2Add(0, d);
    var x, y := Pow2(d), Pow2(k);
    hide Pow2;
    SaturateOnce(timeout * x, y, U32_MAX);
    Product(timeout, x, y);
  }

  /** `n` timeouts in a row multiply the timeout by 2^(n(n+1)/2) up to the sixth and by 64
      more with each further one, saturating; nothing else changes. */
  lemma {:induction false} TimeoutsMultiply(c: Cc, n: nat)
    requires c.consecutiveTimeouts == 0
    ensures AfterTimeouts(c, n)
         == c.(consecutiveTimeouts := n, timeout := Min(c.timeout * Pow2(Doublings(n)), U32_MAX))
  {
    if n > 0 {
      TimeoutsMultiply(c, n - 1);
      var d, k := Doublings(n - 1), Min(n, 6);
      DoublingsStep(n);
      Backoff(c.timeout, d, k);
      hide Pow2, Doublings;
    }
  }
}
