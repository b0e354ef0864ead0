/**
 * The presentation threads as the ordered signals they emit
 * (`PlayNumbersThread` and `PlayDemoThread` in threads.py, and the older
 * `PlayNumbersThread` in PASAT.py).  Threading, audio playback and the clock
 * are not modelled: the playback length of each number and the time spent
 * paused during each wait are inputs, and time is in integer centiseconds,
 * so one wait tick (`time.sleep(0.01)`) is one unit.  A tick is taken to
 * last exactly one unit with no loop overhead, while `time.sleep` only
 * sleeps at least as long as asked: the stamps here are nominal, and real
 * ones drift later.
 */
module Player {

  /** `new_number(n, t)` or `finished`. */
  datatype Signal = NewNumber(n: int, t: int) | Finished

  /** The number of 10 ms ticks `range(round(100 * (interval - length)))`
      waits after a playback of `lengthCs` centiseconds: the playback plus the
      wait fill the interval, and an overrun waits not at all. */
  function WaitTicks(intervalS: int, lengthCs: nat): (ticks: nat)
    ensures lengthCs + ticks >= 100 * intervalS
    ensures ticks == 0 || lengthCs + ticks == 100 * intervalS
  {
    if 100 * intervalS > lengthCs then 100 * intervalS - lengthCs else 0
  }

  /** One pass of the wait loop body, which first spins while `paused` is set
      and only then sleeps a tick: a poll that sees the flag set consumes no
      tick. */
  function Poll(left: nat, paused: bool): nat {
    if paused || left == 0 then left else left - 1
  }

  /** The ticks still to wait after the loop has seen the given sequence of
      pause flags. */
  function Wait(left: nat, polls: seq<bool>): nat {
    if polls == [] then left else Poll(Wait(left, polls[..|polls| - 1]), polls[|polls| - 1])
  }

  /** The number of polls that found the thread running. */
  function Running(polls: seq<bool>): (n: nat)
    ensures n <= |polls|
  {
    if polls == [] then 0 else Running(polls[..|polls| - 1]) + (if polls[|polls| - 1] then 0 else 1)
  }

  /** Only running polls advance the wait: the remaining ticks are the initial
      ticks less the running polls, and never below zero. */
  lemma {:induction false} WaitCountsRunningPolls(left: nat, polls: seq<bool>)
    ensures Wait(left, polls) == if Running(polls) >= left then 0 else left - Running(polls)
  {
    if polls != [] {
      WaitCountsRunningPolls(left, polls[..|polls| - 1]);
    }
  }

  lemma {:induction false} RunningConcat(a: seq<bool>, b: seq<bool>)
    ensures Running(a + b) == Running(a) + Running(b)
  {
    if b == [] {
      assert a + b == a;
    } else {
      RunningConcat(a, b[..|b| - 1]);
      assert (a + b)[..|a + b| - 1] == a + b[..|b| - 1];
    }
  }

  /** A pause leaves no trace in the wait: the loop resumes at the same tick
      as if the paused polls had never happened. */
  lemma PausedPollsInvisible(left: nat, a: seq<bool>, b: seq<bool>)
    ensures Wait(left, a + [true] + b) == Wait(left, a + b)
  {
    RunningConcat(a + [true], b);
    RunningConcat(a, [true]);
    RunningConcat(a, b);
    assert [true][..0] == [];
    WaitCountsRunningPolls(left, a + [true] + b);
    WaitCountsRunningPolls(left, a + b);
  }

  /** The time number `k` is emitted: the start, plus the playback, the wait
      and the time spent paused during the wait of every earlier number. */
  function Stamp(start: int, intervalS: int, lengths: seq<nat>, pauses: seq<nat>, k: nat): int
    requires k <= |lengths| && |pauses| == |lengths|
    decreases k
  {
    if k == 0 then start
    else
      var j := k - 1;
      Stamp(start, intervalS, lengths, pauses, j) + lengths[j] + WaitTicks(intervalS, lengths[j]) + pauses[j]
  }

  /** The signals of `PlayNumbersThread.run` followed by `stop`: every number
      in list order stamped with the time taken before its playback, then the
      padding `new_number(0, now)`, then `finished`.  `pauses[k]` is the time
      the thread spent paused while waiting after number `k`. */
  function Trace(numbers: seq<int>, start: int, intervalS: int, lengths: seq<nat>, pauses: seq<nat>): (r: seq<Signal>)
    requires |lengths| == |numbers| && |pauses| == |numbers|
    ensures |r| == |numbers| + 2
    ensures forall k :: 0 <= k < |numbers| ==> r[k] == NewNumber(numbers[k], Stamp(start, intervalS, lengths, pauses, k))
    ensures r[|numbers|] == NewNumber(0, Stamp(start, intervalS, lengths, pauses, |numbers|))
    ensures r[|numbers| + 1] == Finished
  {
    var n := |numbers|;
    seq(n + 2, i requires 0 <= i < n + 2 =>
      if i < n then NewNumber(numbers[i], Stamp(start, intervalS, lengths, pauses, i))
      else if i == n then NewNumber(0, Stamp(start, intervalS, lengths, pauses, n))
      else Finished)
  }

  /** Consecutive numbers are one interval apart, or one playback when the
      playback overran the interval, plus the time spent paused. */
  lemma TraceSpacing(start: int, intervalS: int, lengths: seq<nat>, pauses: seq<nat>, k: nat)
    requires |pauses| == |lengths| && k < |lengths|
    ensures Stamp(start, intervalS, lengths, pauses, k + 1) - Stamp(start, intervalS, lengths, pauses, k)
         == pauses[k] + (if lengths[k] > 100 * intervalS then lengths[k] else 100 * intervalS)
  {
  }

  /** Without pauses and with every playback within the interval, number `k`
      comes nominally `k` intervals after the start, and the padding signal
      one interval after the last number. */
  lemma {:induction false} TraceDuration(start: int, intervalS: int, lengths: seq<nat>, pauses: seq<nat>, k: nat)
    requires |pauses| == |lengths| && k <= |lengths|
    requires forall j :: 0 <= j < |lengths| ==> lengths[j] <= 100 * intervalS && pauses[j] == 0
    ensures Stamp(start, intervalS, lengths, pauses, k) == start + k * (100 * intervalS)
    decreases k
  {
    if k > 0 {
      TraceDuration(start, intervalS, lengths, pauses, k - 1);
      assert k * (100 * intervalS) == (k - 1) * (100 * intervalS) + 100 * intervalS;
    }
  }

  /** What the older `PlayNumbersThread.run` emitted, and whether it reached
      its `finished` signal. */
  datatype LegacyRun = LegacyRun(signals: seq<Signal>, completed: bool)

  /** How many playbacks, from the first, fit within the interval: the
      index of the first overrun, or the number of playbacks if none. */
  function LeadingWithin(lengths: seq<nat>, intervalS: int): (k: nat)
    ensures k <= |lengths|
    ensures forall j :: 0 <= j < k ==> lengths[j] <= 100 * intervalS
    ensures k < |lengths| ==> lengths[k] > 100 * intervalS
  {
    if lengths == [] then 0
    else
      var init := lengths[..|lengths| - 1];
      var k := LeadingWithin(init, intervalS);
      if k < |init| then k
      else if lengths[|init|] <= 100 * intervalS then |lengths|
      else |init|
  }

  /** The loop of the older thread over the numbers, one iteration per
      number: it emits the number after its playback, stamped with the time
      the playback ended, then sleeps the rest of the interval.  `time.sleep`
      raises on a negative argument, so an iteration whose playback overran
      the interval is the last.  `completed` says that no iteration raised. */
  function LegacyLoop(numbers: seq<int>, start: int, intervalS: int, lengths: seq<nat>): (r: LegacyRun)
    requires |lengths| == |numbers|
    ensures |r.signals| <= |numbers|
    ensures r.completed ==> |r.signals| == |numbers|
    ensures forall k :: 0 <= k < |r.signals| ==>
      r.signals[k] == NewNumber(numbers[k], start + k * (100 * intervalS) + lengths[k])
    decreases |numbers|
  {
    if numbers == [] then LegacyRun([], true)
    else
      var k := |numbers| - 1;
      var before := LegacyLoop(numbers[..k], start, intervalS, lengths[..k]);
      if !before.completed then before
      else
        var signal := NewNumber(numbers[k], start + k * (100 * intervalS) + lengths[k]);
        LegacyRun(before.signals + [signal], lengths[k] <= 100 * intervalS)
  }

  /** The loop gets through every number exactly when no playback overran,
      and otherwise stops right after emitting the first one that did. */
  lemma {:induction false} LegacyLoopStops(numbers: seq<int>, start: int, intervalS: int, lengths: seq<nat>)
    requires |lengths| == |numbers|
    ensures var r := LegacyLoop(numbers, start, intervalS, lengths);
      && (r.completed <==> LeadingWithin(lengths, intervalS) == |numbers|)
      && |r.signals| == if r.completed then |numbers| else LeadingWithin(lengths, intervalS) + 1
    decreases |numbers|
  {
    if numbers != [] {
      var k := |numbers| - 1;
      LegacyLoopStops(numbers[..k], start, intervalS, lengths[..k]);
    }
  }

  /** PASAT.py's thread: the loop, then `finished` if the loop got through. */
  function LegacyTrace(numbers: seq<int>, start: int, intervalS: int, lengths: seq<nat>): (r: LegacyRun)
    requires |lengths| == |numbers|
    ensures r.completed <==> forall k :: 0 <= k < |numbers| ==> lengths[k] <= 100 * intervalS
    ensures r.completed ==> |r.signals| == |numbers| + 1 && r.signals[|numbers|] == Finished
    ensures !r.completed ==> forall k :: 0 <= k < |r.signals| ==> r.signals[k] != Finished
    ensures 0 < |r.signals| <= |numbers| + 1
    ensures forall k :: 0 <= k < |r.signals| - 1 ==> r.signals[k] != Finished
    ensures forall k :: 0 <= k < |r.signals| && r.signals[k] != Finished ==>
      k < |numbers| && r.signals[k] == NewNumber(numbers[k], start + k * (100 * intervalS) + lengths[k])
  {
    var loop := LegacyLoop(numbers, start, intervalS, lengths);
    LegacyLoopStops(numbers, start, intervalS, lengths);
    LegacyRun(loop.signals + (if loop.completed then [Finished] else []), loop.completed)
  }

  /** The run emits every number up to and including the first one whose
      playback overran, and `finished` only when none did. */
  lemma LegacyAbort(numbers: seq<int>, start: int, intervalS: int, lengths: seq<nat>)
    requires |lengths| == |numbers|
    ensures |LegacyTrace(numbers, start, intervalS, lengths).signals| == LeadingWithin(lengths, intervalS) + 1
  {
    LegacyLoopStops(numbers, start, intervalS, lengths);
  }

  /** A signal of `PlayDemoThread`: a pair of digits, or `finished`. */
  datatype PairSignal = NewPair(a: int, b: int, t: int) | PairsFinished

  /** `len(range(interval * 100))`: the demo waits a whole interval per pair,
      with no playback to compensate for. */
  function DemoTicks(intervalS: int): (ticks: nat)
    ensures intervalS >= 0 ==> ticks == 100 * intervalS
  {
    if intervalS > 0 then 100 * intervalS else 0
  }

  /** The time pair `k` of the demo is emitted. */
  function DemoStamp(start: int, intervalS: int, pauses: seq<nat>, k: nat): int
    requires k <= |pauses|
    decreases k
  {
    if k == 0 then start else DemoStamp(start, intervalS, pauses, k - 1) + DemoTicks(intervalS) + pauses[k - 1]
  }

  /** `PlayDemoThread.run` then `stop`: each pair in order, stamped when it is
      emitted, then the padding pair (0, 0), then `finished`. */
  function DemoTrace(pairs: seq<(int, int)>, start: int, intervalS: int, pauses: seq<nat>): (r: seq<PairSignal>)
    requires |pauses| == |pairs|
    ensures |r| == |pairs| + 2
    ensures forall k :: 0 <= k < |pairs| ==> r[k] == NewPair(pairs[k].0, pairs[k].1, DemoStamp(start, intervalS, pauses, k))
    ensures r[|pairs|] == NewPair(0, 0, DemoStamp(start, intervalS, pauses, |pairs|))
    ensures r[|pairs| + 1] == PairsFinished
  {
    var n := |pairs|;
    seq(n + 2, i requires 0 <= i < n + 2 =>
      if i < n then NewPair(pairs[i].0, pairs[i].1, DemoStamp(start, intervalS, pauses, i))
      else if i == n then NewPair(0, 0, DemoStamp(start, intervalS, pauses, n))
      else PairsFinished)
  }

  /** Without pauses, pair `k` comes nominally `k` whole intervals after the
      start, whatever the playback would have taken. */
  lemma {:induction false} DemoDuration(start: int, intervalS: nat, pauses: seq<nat>, k: nat)
    requires k <= |pauses|
    requires forall j :: 0 <= j < |pauses| ==> pauses[j] == 0
    ensures DemoStamp(start, intervalS, pauses, k) == start + k * (100 * intervalS)
    decreases k
  {
    if k > 0 {
      DemoDuration(start, intervalS, pauses, k - 1);
      assert k * (100 * intervalS) == (k - 1) * (100 * intervalS) + 100 * intervalS;
    }
  }
}
