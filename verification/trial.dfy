/**
 * A whole trial as the window sees it: the numbers of the player thread,
 * each followed by the clicks and keys of the interval it opens, and the
 * records the window holds once they have all been handled.
 */
module Trial {
  import opened Wrappers
  import opened Numerals
  import opened DigitScript
  import opened Stats
  import opened Window
  import opened Player

  /** The events of a trial: number `k` arrives at `ts[k]`, and `user[k]` are
      the clicks and keys made before the next number. */
  function Interleave(xs: seq<int>, ts: seq<int>, user: seq<seq<Event>>): (r: seq<Event>)
    requires |ts| == |xs| && |user| == |xs|
    decreases |xs|
  {
    if xs == [] then []
    else
      var k := |xs| - 1;
      Interleave(xs[..k], ts[..k], user[..k]) + ([Number(xs[k], ts[k])] + user[k])
  }

  predicate AllUserOnly(user: seq<seq<Event>>) {
    forall j :: 0 <= j < |user| ==> UserOnly(user[j])
  }

  /** The record of the interval opened by number `j + 1`, scored against
      numbers `j` and `j + 1`, measured from `ts[j + 1]` and closed by number
      `j + 2` at `ts[j + 2]`. */
  function ClosedRecord(v: Variant, xs: seq<int>, ts: seq<int>, user: seq<seq<Event>>, j: nat): Record
    requires |ts| == |xs| && |user| == |xs| && j + 2 < |xs|
  {
    IntervalRecord(v, user[j + 1], xs[j] + xs[j + 1], ts[j + 1], ts[j + 2])
  }

  /** The records of the intervals the trial has closed, in order. */
  function ClosedRecords(v: Variant, xs: seq<int>, ts: seq<int>, user: seq<seq<Event>>): (r: seq<Record>)
    requires |ts| == |xs| && |user| == |xs|
    ensures |r| == if |xs| >= 2 then |xs| - 2 else 0
    decreases |xs|
  {
    if |xs| < 3 then []
    else
      var k := |xs| - 1;
      ClosedRecords(v, xs[..k], ts[..k], user[..k]) + [ClosedRecord(v, xs, ts, user, k - 2)]
  }

  /** Every interval but the first and the last gets its record, in the
      order of the numbers. */
  lemma {:induction false} ClosedRecordsAt(v: Variant, xs: seq<int>, ts: seq<int>, user: seq<seq<Event>>)
    requires |ts| == |xs| && |user| == |xs|
    ensures forall j :: 0 <= j < |ClosedRecords(v, xs, ts, user)| ==>
      ClosedRecords(v, xs, ts, user)[j] == ClosedRecord(v, xs, ts, user, j)
    decreases |xs|
  {
    if |xs| >= 3 {
      var k := |xs| - 1;
      var xs', ts', user' := xs[..k], ts[..k], user[..k];
      ClosedRecordsAt(v, xs', ts', user');
      forall j | 0 <= j < k - 2
        ensures ClosedRecord(v, xs', ts', user', j) == ClosedRecord(v, xs, ts, user, j)
      {
        assert xs'[j] == xs[j] && xs'[j + 1] == xs[j + 1];
        assert ts'[j + 1] == ts[j + 1] && ts'[j + 2] == ts[j + 2] && user'[j + 1] == user[j + 1];
      }
    }
  }

  /** The state right after the last number of `xs` has been handled. */
  function Opened(v: Variant, xs: seq<int>, ts: seq<int>, user: seq<seq<Event>>): (r: Session)
    requires |ts| == |xs| && |user| == |xs| && xs != []
    ensures Valid(r)
  {
    Session(xs, ClosedRecords(v, xs, ts, user), [], false, |xs| >= 2, ts[|xs| - 1])
  }

  /** The state at the end of the trial's events, by the first-answer-wins
      reading of the last interval. */
  function Final(v: Variant, xs: seq<int>, ts: seq<int>, user: seq<seq<Event>>, now: int): (r: Session)
    requires |ts| == |xs| && |user| == |xs|
    ensures Valid(r)
  {
    if xs == [] then Initial(now)
    else
      var s := Opened(v, xs, ts, user);
      if |xs| < 2 then s else Latched(v, s, user[|xs| - 1])
  }

  /** The next number closes the last interval with its record. */
  lemma OpenAfterNumber(v: Variant, xs: seq<int>, ts: seq<int>, user: seq<seq<Event>>, now: int)
    requires |ts| == |xs| && |user| == |xs| && xs != []
    ensures var k := |xs| - 1;
      OnNumber(v, Final(v, xs[..k], ts[..k], user[..k], now), xs[k], ts[k]) == Opened(v, xs, ts, user)
  {
    var k := |xs| - 1;
    var xs', ts', user' := xs[..k], ts[..k], user[..k];
    assert xs' + [xs[k]] == xs;
    if k >= 2 {
      ClosedIsOpened(v, xs, ts, user);
      assert user'[k - 1] == user[k - 1];
      LatchedThenNumber(v, Opened(v, xs', ts', user'), user[k - 1], xs[k], ts[k]);
    }
  }

  /** Closing the last interval of `xs` with its answer, as the next number
      arrives, opens the interval of that number. */
  lemma ClosedIsOpened(v: Variant, xs: seq<int>, ts: seq<int>, user: seq<seq<Event>>)
    requires |ts| == |xs| && |user| == |xs| && |xs| >= 3
    ensures var k := |xs| - 1;
      Closed(v, Opened(v, xs[..k], ts[..k], user[..k]), IntervalAnswer(v, user[k - 1], ts[k]), xs[k], ts[k])
      == Opened(v, xs, ts, user)
  {
    var k := |xs| - 1;
    var s := Opened(v, xs[..k], ts[..k], user[..k]);
    ClosedRecordIs(v, s, user[k - 1], xs[k], ts[k], xs[k - 2] + xs[k - 1], ts[k - 1]);
    assert xs[..k] + [xs[k]] == xs;
  }

  /** Handling a whole trial leaves the window in the state the
      first-answer-wins reading gives. */
  lemma {:induction false} WholeRun(v: Variant, xs: seq<int>, ts: seq<int>, user: seq<seq<Event>>, now: int)
    requires |ts| == |xs| && |user| == |xs| && AllUserOnly(user)
    ensures Run(v, Initial(now), Interleave(xs, ts, user)) == Final(v, xs, ts, user, now)
    decreases |xs|
  {
    InitialValid(now);
    if xs != [] {
      var k := |xs| - 1;
      var xs', ts', user' := xs[..k], ts[..k], user[..k];
      WholeRun(v, xs', ts', user', now);
      var before := Interleave(xs', ts', user');
      var number := Number(xs[k], ts[k]);
      var prev := Run(v, Initial(now), before);
      RunConcat(v, Initial(now), before, [number] + user[k]);
      RunConcat(v, prev, [number], user[k]);
      assert [number][..0] == [];
      OpenAfterNumber(v, xs, ts, user, now);
      var s := Opened(v, xs, ts, user);
      assert UserOnly(user[k]);
      if k == 0 {
        IgnoredBeforeTwoNumbers(v, s, user[k]);
      } else {
        LatchIsFirstCommit(v, s, user[k]);
      }
    }
  }

  /** The record of the last interval, which no number closes: its first
      committed answer, if any, scored against the last two numbers and
      measured from the last number's stamp. */
  function PendingRecords(v: Variant, xs: seq<int>, ts: seq<int>, user: seq<seq<Event>>): (r: seq<Record>)
    requires |ts| == |xs| && |user| == |xs|
    ensures |r| <= 1
  {
    if |xs| < 2 then []
    else
      var k := |xs| - 1;
      CommittedRecords(v, user[k], xs[k - 1] + xs[k], ts[k])
  }

  /** After a trial the records are one per closed interval, in order, then
      the last interval's record if an answer was committed in it. */
  lemma TrialRecords(v: Variant, xs: seq<int>, ts: seq<int>, user: seq<seq<Event>>, now: int)
    requires |ts| == |xs| && |user| == |xs| && AllUserOnly(user)
    ensures Run(v, Initial(now), Interleave(xs, ts, user)).records
         == ClosedRecords(v, xs, ts, user) + PendingRecords(v, xs, ts, user)
  {
    WholeRun(v, xs, ts, user, now);
    FinalRecords(v, xs, ts, user, now);
  }

  /** Counted from the end: a trial over at least two numbers keeps one
      record per closed interval and one more exactly when an answer was
      committed after the last number. */
  lemma TrialShape(v: Variant, xs: seq<int>, ts: seq<int>, user: seq<seq<Event>>, now: int)
    requires |ts| == |xs| && |user| == |xs| && AllUserOnly(user) && |xs| >= 2
    ensures var records := Run(v, Initial(now), Interleave(xs, ts, user)).records;
      && (|records| == |xs| - 1 <==> FirstCommit(v, "", user[|xs| - 1]).Some?)
      && (|records| == |xs| - 2 <==> FirstCommit(v, "", user[|xs| - 1]).None?)
      && forall j :: 0 <= j < |xs| - 2 ==> records[j] == ClosedRecord(v, xs, ts, user, j)
  {
    TrialRecords(v, xs, ts, user, now);
    ClosedRecordsAt(v, xs, ts, user);
  }

  lemma FinalRecords(v: Variant, xs: seq<int>, ts: seq<int>, user: seq<seq<Event>>, now: int)
    requires |ts| == |xs| && |user| == |xs|
    ensures Final(v, xs, ts, user, now).records == ClosedRecords(v, xs, ts, user) + PendingRecords(v, xs, ts, user)
  {
    if |xs| >= 2 {
      var k := |xs| - 1;
      LatchedRecords(v, Opened(v, xs, ts, user), user[k], xs[k - 1] + xs[k], ts[k]);
    }
  }

  /** The numbers `_update_number` receives from a thread's signals: every
      `new_number`, in order; `finished` goes to `_finished` instead. */
  function DeliveredNumbers(sig: seq<Signal>): (xs: seq<int>)
    ensures |xs| <= |sig|
  {
    if sig == [] then []
    else DeliveredNumbers(sig[..|sig| - 1]) + (if sig[|sig| - 1].NewNumber? then [sig[|sig| - 1].n] else [])
  }

  /** The stamps that come with the delivered numbers. */
  function DeliveredStamps(sig: seq<Signal>): (ts: seq<int>)
    ensures |ts| == |DeliveredNumbers(sig)|
  {
    if sig == [] then []
    else DeliveredStamps(sig[..|sig| - 1]) + (if sig[|sig| - 1].NewNumber? then [sig[|sig| - 1].t] else [])
  }

  /** Signals that are numbers up to `m` and `finished` after it deliver
      exactly the first `m` numbers and stamps. */
  lemma {:induction false} DeliveredPrefix(sig: seq<Signal>, m: nat)
    requires m <= |sig|
    requires forall k :: 0 <= k < m ==> sig[k].NewNumber?
    requires forall k :: m <= k < |sig| ==> sig[k] == Finished
    ensures |DeliveredNumbers(sig)| == m
    ensures forall k :: 0 <= k < m ==> DeliveredNumbers(sig)[k] == sig[k].n && DeliveredStamps(sig)[k] == sig[k].t
    decreases |sig|
  {
    if sig != [] {
      var init := sig[..|sig| - 1];
      if |sig| > m {
        DeliveredPrefix(init, m);
      } else {
        DeliveredPrefix(init, m - 1);
      }
    }
  }

  /** `ClosedRecord` with its numbers and stamps given by value. */
  lemma ClosedRecordWith(v: Variant, xs: seq<int>, ts: seq<int>, user: seq<seq<Event>>, j: nat, sum: int, open: int, close: int)
    requires |ts| == |xs| && |user| == |xs| && j + 2 < |xs|
    requires sum == xs[j] + xs[j + 1] && open == ts[j + 1] && close == ts[j + 2]
    ensures ClosedRecord(v, xs, ts, user, j) == IntervalRecord(v, user[j + 1], sum, open, close)
  {
  }

  /** `PendingRecords` with the last two numbers' sum and the last stamp
      given by value. */
  lemma PendingWith(v: Variant, xs: seq<int>, ts: seq<int>, user: seq<seq<Event>>, sum: int, open: int)
    requires |ts| == |xs| && |user| == |xs| && |xs| >= 2
    requires sum == xs[|xs| - 2] + xs[|xs| - 1] && open == ts[|xs| - 1]
    ensures PendingRecords(v, xs, ts, user) == CommittedRecords(v, user[|xs| - 1], sum, open)
  {
  }

  /** `_update_number` receives the numbers of main.py's player thread and
      then the padding 0, each stamped with the time before its playback. */
  lemma CurrentDelivery(numbers: seq<int>, start: int, intervalS: int, lengths: seq<nat>, pauses: seq<nat>)
    requires |lengths| == |numbers| && |pauses| == |numbers|
    ensures var sig := Trace(numbers, start, intervalS, lengths, pauses);
      var xs, ts := DeliveredNumbers(sig), DeliveredStamps(sig);
      && |xs| == |numbers| + 1
      && (forall k :: 0 <= k < |numbers| ==> xs[k] == numbers[k])
      && xs[|numbers|] == 0
      && forall k :: 0 <= k <= |numbers| ==> ts[k] == Stamp(start, intervalS, lengths, pauses, k)
  {
    DeliveredPrefix(Trace(numbers, start, intervalS, lengths, pauses), |numbers| + 1);
  }

  /** When PASAT.py's thread signals number `k`: its slot of the fixed
      schedule plus the length of its playback. */
  function LegacyStamp(start: int, intervalS: int, lengths: seq<nat>, k: nat): int
    requires k < |lengths|
  {
    start + k * (100 * intervalS) + lengths[k]
  }

  /** `_update_number` receives every number of a PASAT.py run whose
      playbacks fit the interval, each stamped when its playback ended. */
  lemma LegacyDelivery(numbers: seq<int>, start: int, intervalS: int, lengths: seq<nat>)
    requires |lengths| == |numbers|
    requires forall k :: 0 <= k < |numbers| ==> lengths[k] <= 100 * intervalS
    ensures var sig := LegacyTrace(numbers, start, intervalS, lengths).signals;
      var xs, ts := DeliveredNumbers(sig), DeliveredStamps(sig);
      && |xs| == |numbers|
      && (forall k :: 0 <= k < |numbers| ==> xs[k] == numbers[k])
      && forall k :: 0 <= k < |numbers| ==> ts[k] == LegacyStamp(start, intervalS, lengths, k)
  {
    DeliveredPrefix(LegacyTrace(numbers, start, intervalS, lengths).signals, |numbers|);
  }

  /** The events the window handles in a run of main.py: each number of the
      player thread, the padding 0 included, with the clicks and keys the
      user makes before the next one. */
  function CurrentEvents(numbers: seq<int>, start: int, intervalS: int, lengths: seq<nat>, pauses: seq<nat>, user: seq<seq<Event>>): seq<Event>
    requires |lengths| == |numbers| && |pauses| == |numbers| && |user| == |numbers| + 1
  {
    var sig := Trace(numbers, start, intervalS, lengths, pauses);
    DeliveredPrefix(sig, |numbers| + 1);
    Interleave(DeliveredNumbers(sig), DeliveredStamps(sig), user)
  }

  /** A run of main.py over `n >= 1` numbers with no input after the padding
      0 ends with exactly `n - 1` records, one per interval from the second
      number on: the answer given between numbers `j + 1` and `j + 2` (the
      padding for the last), scored against numbers `j` and `j + 1` and timed
      from the stamp of number `j + 1`.  The results dialog counts them all. */
  lemma CurrentTrial(lang: Language, numbers: seq<int>, start: int, intervalS: int, lengths: seq<nat>, pauses: seq<nat>,
                     user: seq<seq<Event>>, now: int)
    requires |lengths| == |numbers| && |pauses| == |numbers| && |user| == |numbers| + 1
    requires numbers != [] && AllUserOnly(user) && user[|numbers|] == []
    ensures var v := Current(lang);
      var s := Run(v, Initial(now), CurrentEvents(numbers, start, intervalS, lengths, pauses, user));
      && |s.records| == |numbers| - 1
      && (forall j :: 0 <= j < |numbers| - 1 ==>
            s.records[j] == IntervalRecord(v, user[j + 1], numbers[j] + numbers[j + 1],
              Stamp(start, intervalS, lengths, pauses, j + 1), Stamp(start, intervalS, lengths, pauses, j + 2)))
      && (Finish(Results(s), ReactionTimes(s)).Some? <==> |numbers| >= 2)
  {
    var v := Current(lang);
    var sig := Trace(numbers, start, intervalS, lengths, pauses);
    CurrentDelivery(numbers, start, intervalS, lengths, pauses);
    var xs, ts := DeliveredNumbers(sig), DeliveredStamps(sig);
    TrialRecords(v, xs, ts, user, now);
    ClosedRecordsAt(v, xs, ts, user);
    assert PendingRecords(v, xs, ts, user) == [];
    forall j | 0 <= j < |numbers| - 1
      ensures ClosedRecord(v, xs, ts, user, j)
           == IntervalRecord(v, user[j + 1], numbers[j] + numbers[j + 1],
                Stamp(start, intervalS, lengths, pauses, j + 1), Stamp(start, intervalS, lengths, pauses, j + 2))
    {
      ClosedRecordWith(v, xs, ts, user, j, numbers[j] + numbers[j + 1],
        Stamp(start, intervalS, lengths, pauses, j + 1), Stamp(start, intervalS, lengths, pauses, j + 2));
    }
  }

  /** A click alone in the last interval adds its record after those of
      the closed intervals. */
  lemma LateClickRecords(v: Variant, xs: seq<int>, ts: seq<int>, user: seq<seq<Event>>, now: int,
                         value: nat, t: int, sum: int, open: int)
    requires |ts| == |xs| && |user| == |xs| && |xs| >= 2 && AllUserOnly(user)
    requires user[|xs| - 1] == [Click(value, t)]
    requires sum == xs[|xs| - 2] + xs[|xs| - 1] && open == ts[|xs| - 1]
    ensures var records := Run(v, Initial(now), Interleave(xs, ts, user)).records;
      |records| == |xs| - 1 && records[|xs| - 2] == Score(v, ButtonText(v, value), sum, t - open)
  {
    TrialRecords(v, xs, ts, user, now);
    PendingWith(v, xs, ts, user, sum, open);
    ClickCommits(v, user[|xs| - 1], value, t, sum, open);
  }

  /** A click after the padding 0 still counts: the answer slot stays open,
      and the click is scored against 0 plus the last real number. */
  lemma LateClick(lang: Language, numbers: seq<int>, start: int, intervalS: int, lengths: seq<nat>, pauses: seq<nat>,
                  user: seq<seq<Event>>, now: int, value: nat, t: int)
    requires |lengths| == |numbers| && |pauses| == |numbers| && |user| == |numbers| + 1
    requires numbers != [] && AllUserOnly(user) && user[|numbers|] == [Click(value, t)]
    ensures var v := Current(lang);
      var s := Run(v, Initial(now), CurrentEvents(numbers, start, intervalS, lengths, pauses, user));
      var last := Stamp(start, intervalS, lengths, pauses, |numbers|);
      && |s.records| == |numbers|
      && s.records[|numbers| - 1] == Score(v, ButtonText(v, value), numbers[|numbers| - 1] + 0, t - last)
  {
    var v := Current(lang);
    var sig := Trace(numbers, start, intervalS, lengths, pauses);
    CurrentDelivery(numbers, start, intervalS, lengths, pauses);
    var xs, ts := DeliveredNumbers(sig), DeliveredStamps(sig);
    var n := |numbers|;
    var last := Stamp(start, intervalS, lengths, pauses, n);
    assert CurrentEvents(numbers, start, intervalS, lengths, pauses, user) == Interleave(xs, ts, user);
    LateClickRecords(v, xs, ts, user, now, value, t, numbers[n - 1] + 0, last);
  }

  /** The events the window handles in a run of PASAT.py whose playbacks all
      fit the interval: each number, stamped when its playback ended, with the
      clicks and keys the user makes before the next one; no padding. */
  function LegacyEvents(numbers: seq<int>, start: int, intervalS: int, lengths: seq<nat>, user: seq<seq<Event>>): seq<Event>
    requires |lengths| == |numbers| && |user| == |numbers|
    requires forall k :: 0 <= k < |numbers| ==> lengths[k] <= 100 * intervalS
  {
    var sig := LegacyTrace(numbers, start, intervalS, lengths).signals;
    DeliveredPrefix(sig, |numbers|);
    Interleave(DeliveredNumbers(sig), DeliveredStamps(sig), user)
  }

  /** Without the padding number, a run of PASAT.py over `n >= 2` numbers
      closes only `n - 2` intervals, each recorded as in main.py; the last
      interval adds a record only when an answer was committed in it. */
  lemma LegacyTrial(numbers: seq<int>, start: int, intervalS: int, lengths: seq<nat>, user: seq<seq<Event>>, now: int)
    requires |lengths| == |numbers| && |user| == |numbers| && |numbers| >= 2 && AllUserOnly(user)
    requires forall k :: 0 <= k < |numbers| ==> lengths[k] <= 100 * intervalS
    ensures var s := Run(Legacy, Initial(now), LegacyEvents(numbers, start, intervalS, lengths, user));
      var n := |numbers|;
      && (|s.records| == n - 1 <==> FirstCommit(Legacy, "", user[n - 1]).Some?)
      && (|s.records| == n - 2 <==> FirstCommit(Legacy, "", user[n - 1]).None?)
      && (forall j :: 0 <= j < n - 2 ==>
            s.records[j] == IntervalRecord(Legacy, user[j + 1], numbers[j] + numbers[j + 1],
              LegacyStamp(start, intervalS, lengths, j + 1), LegacyStamp(start, intervalS, lengths, j + 2)))
  {
    var sig := LegacyTrace(numbers, start, intervalS, lengths).signals;
    LegacyDelivery(numbers, start, intervalS, lengths);
    var xs, ts := DeliveredNumbers(sig), DeliveredStamps(sig);
    TrialShape(Legacy, xs, ts, user, now);
    forall j | 0 <= j < |numbers| - 2
      ensures ClosedRecord(Legacy, xs, ts, user, j)
           == IntervalRecord(Legacy, user[j + 1], numbers[j] + numbers[j + 1],
                LegacyStamp(start, intervalS, lengths, j + 1), LegacyStamp(start, intervalS, lengths, j + 2))
    {
      ClosedRecordWith(Legacy, xs, ts, user, j, numbers[j] + numbers[j + 1],
        LegacyStamp(start, intervalS, lengths, j + 1), LegacyStamp(start, intervalS, lengths, j + 2));
    }
  }
}
