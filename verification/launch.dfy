/**
 * Starting and ending a trial: the settings main.py keeps in module globals
 * and edits through its preferences dialog, the `_start` handler that draws
 * the numbers and launches the player thread, and the `_finished` handler
 * that computes the summary.  PASAT.py draws its numbers once, when the
 * window is built.
 */
module Launch {
  import opened Wrappers
  import opened Numerals
  import opened Stats
  import opened Window
  import opened Player
  import opened Trial
  import opened DigitScript

  /** `NUMBERS_PER_TRIAL`, `INTERVAL` (seconds) and `TRIAL_LENGTH` (seconds). */
  datatype Config = Config(numbersPerTrial: int, intervalS: int, trialLengthS: int)

  /** The values both revisions start from: ten numbers, three seconds
      apart, thirty seconds in all. */
  const Defaults: Config := Config(10, 3, 10 * 3)

  /** The trial length is the time the numbers take. */
  predicate Consistent(c: Config) {
    c.trialLengthS == c.numbersPerTrial * c.intervalS
  }

  /** The settings after `_save_preferences`, and whether it raised. */
  datatype Saved = Saved(config: Config, raised: bool)

  /** `_save_preferences` with the texts of the two spin boxes.  `int` raises
      on a text that is not a number; `NUMBERS_PER_TRIAL` is assigned before
      the interval text is read, so a failure there leaves it updated and the
      trial length stale. */
  function SavePreferences(c: Config, numbersText: string, intervalText: string): (r: Saved)
    ensures !r.raised <==> ParseInt(numbersText).Some? && ParseInt(intervalText).Some?
    ensures ParseInt(numbersText).Some? ==> r.config.numbersPerTrial == ParseInt(numbersText).value
    ensures !r.raised ==>
      && Consistent(r.config)
      && r.config.numbersPerTrial == ParseInt(numbersText).value
      && r.config.intervalS == ParseInt(intervalText).value
    ensures ParseInt(numbersText).None? ==> r.config == c
    ensures r.raised ==> r.config.intervalS == c.intervalS && r.config.trialLengthS == c.trialLengthS
  {
    match ParseInt(numbersText)
    case None => Saved(c, true)
    case Some(n) =>
      match ParseInt(intervalText)
      case None => Saved(c.(numbersPerTrial := n), true)
      case Some(i) => Saved(Config(n, i, n * i), false)
  }

  /** Saving what the spin boxes show for `n` and `i` stores exactly those
      values, with the matching trial length. */
  lemma SaveShownValues(c: Config, n: nat, i: nat)
    ensures SavePreferences(c, DecimalString(n), DecimalString(i)) == Saved(Config(n, i, n * i), false)
  {
    ParseDecimalString(n);
    ParseDecimalString(i);
  }

  /** With consistent settings and no pause or overrun, main.py's padding
      number nominally arrives `TRIAL_LENGTH` seconds after the first one. */
  lemma PaddingAtTrialLength(cfg: Config, start: int, lengths: seq<nat>)
    requires Consistent(cfg) && |lengths| == cfg.numbersPerTrial
    requires forall j :: 0 <= j < |lengths| ==> lengths[j] <= 100 * cfg.intervalS
    ensures var pauses := seq(|lengths|, j => 0);
      Stamp(start, cfg.intervalS, lengths, pauses, |lengths|) == start + 100 * cfg.trialLengthS
  {
    var pauses: seq<nat> := seq(|lengths|, j => 0);
    TraceDuration(start, cfg.intervalS, lengths, pauses, |lengths|);
    assert |lengths| * (100 * cfg.intervalS) == 100 * (|lengths| * cfg.intervalS);
  }

  /** `random.randint(1, 10)`: the generator's state is not modelled, so the
      draw is given from outside and any natural number stands for one. */
  function RandInt(roll: nat): (d: int)
    ensures 1 <= d <= 10
  {
    1 + roll % 10
  }

  /** Every sequence of values in [1, 10] is a possible outcome of the draws. */
  lemma EveryDrawPossible(want: seq<int>)
    requires forall k :: 0 <= k < |want| ==> 1 <= want[k] <= 10
    ensures exists rolls: seq<nat> :: |rolls| == |want| && forall k :: 0 <= k < |want| ==> RandInt(rolls[k]) == want[k]
  {
    var rolls: seq<nat> := seq(|want|, k requires 0 <= k < |want| => want[k] - 1);
    assert forall k :: 0 <= k < |want| ==> RandInt(rolls[k]) == want[k];
  }

  /** The loop that fills `random_numbers`: `count` draws, one per turn of
      `range(count)`, which is empty for a count below one. */
  method DrawNumbers(count: int, rolls: nat -> nat) returns (numbers: seq<int>)
    ensures |numbers| == if count > 0 then count else 0
    ensures forall k :: 0 <= k < |numbers| ==> numbers[k] == RandInt(rolls(k))
    ensures forall k :: 0 <= k < |numbers| ==> 1 <= numbers[k] <= 10
  {
    numbers := [];
    var k := 0;
    while k < count
      invariant 0 <= k <= if count > 0 then count else 0
      invariant |numbers| == k
      invariant forall j :: 0 <= j < k ==> numbers[j] == RandInt(rolls(j))
    {
      numbers := numbers + [RandInt(rolls(k))];
      k := k + 1;
    }
  }

  /** What `_start` hands to the player thread: the numbers and the interval. */
  datatype Playback = Playback(numbers: seq<int>, intervalS: int)

  /** `trial_started`, whether the Start button is enabled, `random_numbers`
      and the player thread once launched. */
  datatype Control = Control(started: bool, startEnabled: bool, numbers: seq<int>, playback: Option<Playback>)

  /** main.py's window before any trial. */
  const Idle: Control := Control(false, true, [], None)

  /** `_start` in main.py: nothing while a trial runs; otherwise a fresh draw
      of `NUMBERS_PER_TRIAL` numbers, played at the configured interval, and
      the Start button disabled. */
  method Start(c: Control, cfg: Config, rolls: nat -> nat) returns (r: Control)
    ensures c.started ==> r == c
    ensures !c.started ==>
      && r.started && !r.startEnabled
      && r.playback == Some(Playback(r.numbers, cfg.intervalS))
      && |r.numbers| == (if cfg.numbersPerTrial > 0 then cfg.numbersPerTrial else 0)
      && forall k :: 0 <= k < |r.numbers| ==> 1 <= r.numbers[k] <= 10
  {
    if c.started {
      return c;
    }
    var numbers := DrawNumbers(cfg.numbersPerTrial, rolls);
    r := Control(true, false, numbers, Some(Playback(numbers, cfg.intervalS)));
  }

  /** PASAT.py's window as `__init__` leaves it: ten numbers already drawn,
      nothing started. */
  method LegacyInit(rolls: nat -> nat) returns (r: Control)
    ensures !r.started && r.startEnabled && r.playback.None?
    ensures |r.numbers| == Defaults.numbersPerTrial
    ensures forall k :: 0 <= k < |r.numbers| ==> 1 <= r.numbers[k] <= 10
  {
    var numbers := DrawNumbers(Defaults.numbersPerTrial, rolls);
    r := Control(false, true, numbers, None);
  }

  /** `_start` in PASAT.py: plays the numbers drawn at start-up; the Start
      button stays enabled. */
  function LegacyStart(c: Control): (r: Control)
    ensures r.started && r.numbers == c.numbers && r.startEnabled == c.startEnabled
    ensures c.started ==> r == c
    ensures !c.started ==> r.playback == Some(Playback(c.numbers, Defaults.intervalS))
  {
    if c.started then c else c.(started := true, playback := Some(Playback(c.numbers, Defaults.intervalS)))
  }

  /** `_finished` in main.py: with no results it returns at once and the
      trial stays started; otherwise it ends the trial and summarises.  The
      Start button is left as it was. */
  function Finished(c: Control, s: Session): (r: (Control, Option<Summary>))
    ensures r.1.None? <==> s.records == []
    ensures r.1.None? ==> r.0 == c
    ensures r.1.Some? ==> r.0 == c.(started := false)
    ensures r.1.Some? ==>
      && Tallies(r.1.value, Results(s))
      && r.1.value.correct + r.1.value.incorrect + r.1.value.notAnswered == |s.records|
      && r.1.value.meanReactionTime == Some(NonZeroMean(ReactionTimes(s)))
  {
    var summary := Finish(Results(s), ReactionTimes(s));
    if summary.None? then (c, None) else (c.(started := false), summary)
  }

  /** A main.py trial over at least two numbers, with no input after the
      padding number, always has results, so `_finished` clears
      `trial_started`; the Start button that `_start` disabled stays
      disabled, so the window runs one trial. */
  lemma FinishedEndsTrial(c: Control, lang: Language, numbers: seq<int>, start: int, intervalS: int,
                          lengths: seq<nat>, pauses: seq<nat>, user: seq<seq<Event>>, now: int)
    requires |lengths| == |numbers| && |pauses| == |numbers| && |user| == |numbers| + 1
    requires |numbers| >= 2 && AllUserOnly(user) && user[|numbers|] == []
    ensures var s := Run(Current(lang), Initial(now), CurrentEvents(numbers, start, intervalS, lengths, pauses, user));
      var r := Finished(c, s);
      r.1.Some? && !r.0.started && r.0.startEnabled == c.startEnabled
  {
    CurrentTrial(lang, numbers, start, intervalS, lengths, pauses, user, now);
  }

  /** `_finished` in PASAT.py never clears `trial_started`. */
  function LegacyFinished(c: Control, s: Session): (r: (Control, Option<Summary>))
    ensures r.0 == c
    ensures r.1.None? <==> s.records == []
    ensures r.1.Some? ==> Tallies(r.1.value, Results(s))
    ensures r.1.Some? ==> r.1.value.correct + r.1.value.incorrect + r.1.value.notAnswered == |s.records|
    ensures r.1.Some? ==> (r.1.value.meanReactionTime.Some? ==> r.1.value.meanReactionTime.value == NonZeroMean(ReactionTimes(s)))
    ensures r.1.Some? ==>
      (r.1.value.meanReactionTime.None? <==> forall i :: 0 <= i < |s.records| ==> s.records[i].reactionTime == 0)
  {
    (c, LegacyFinish(Results(s), ReactionTimes(s)))
  }

  /** PASAT.py runs one trial per window: once started, no later `_start`
      or `_finished` changes what is playing. */
  lemma LegacyOneShot(c: Control, s: Session)
    ensures var started := LegacyStart(c);
      LegacyStart(LegacyFinished(started, s).0) == started
  {
  }
}
