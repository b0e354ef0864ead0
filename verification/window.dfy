/**
 * The trial session of the main window: the state kept by `Window` in
 * main.py (and by its older copy in PASAT.py) and the four handlers that
 * change it.  `_update_number` reacts to a number from the player thread,
 * `_on_click_answer` to an answer button, `keyPressEvent` to the keyboard,
 * and `_submit_answer` scores an answer against the last two numbers played.
 * Widgets are not modelled; every event carries the time, in centiseconds,
 * at which its handler runs.
 */
module Window {
  import opened Wrappers
  import opened Numerals
  import opened DigitScript
  import opened Stats

  /** Which revision of the window: main.py, with its display language, or
      the single-file PASAT.py, which always shows Persian digits. */
  datatype Variant = Current(lang: Language) | Legacy

  /** The script the variant writes digits in. */
  function Script(v: Variant): Language {
    match v
    case Current(lang) => lang
    case Legacy => Farsi
  }

  /** Qt key codes the keyboard handler tests for. */
  const KeyBackspace: int := 0x0100_0003
  const KeyQ: int := 0x51
  const Key0: int := 0x30
  const Key9: int := 0x39

  datatype Event =
    | Number(n: int, t: int)   // `_update_number(n, t)`, relayed from the player thread
    | Click(v: nat, t: int)    // `_on_click_answer` on the button labelled `v`
    | Key(code: int, t: int)   // `keyPressEvent` with key code `code`

  predicate UserOnly(es: seq<Event>) {
    forall i :: 0 <= i < |es| ==> !es[i].Number?
  }

  /** The window's trial state: `played_numbers`, the paired entries of
      `results` and `reaction_times`, `current_typed_answer`,
      `answerButton_clicked`, `allow_answer` and `time_presented`. */
  datatype Session = Session(
    played: seq<int>,
    records: seq<Record>,
    typed: string,
    answered: bool,
    allowAnswer: bool,
    presentedAt: int)

  /** The state `__init__` sets up, `time_presented` being the current time. */
  function Initial(now: int): Session {
    Session([], [], "", false, false, now)
  }

  /** What every reachable state satisfies. */
  predicate Valid(s: Session) {
    && (s.allowAnswer <==> |s.played| >= 2)
    && (!s.allowAnswer ==> s.typed == [] && !s.answered)
    && |s.typed| <= 2
    && IsNumeral(s.typed)
  }

  lemma InitialValid(now: int)
    ensures Valid(Initial(now))
  {
  }

  /** `round(x, 1)` for a non-negative duration of `cs` centiseconds: the
      nearest whole tenth, ties to the even tenth.  Ties are decided on the
      exact decimal value; Python decides them on the nearest binary float,
      so its ties can go either way. */
  function RoundHalfEven(cs: nat): (r: nat)
    ensures r % 10 == 0
    ensures cs - 5 <= r <= cs + 5
    ensures (r == cs - 5 || r == cs + 5) ==> (r / 10) % 2 == 0
  {
    var q := cs / 10;
    var rem := cs % 10;
    if rem < 5 || (rem == 5 && q % 2 == 0) then 10 * q else 10 * (q + 1)
  }

  /** `round(x, 1)` for any duration; Python rounds symmetrically about 0. */
  function RoundToTenth(cs: int): (r: int)
    ensures r % 10 == 0
    ensures cs - 5 <= r <= cs + 5
    ensures cs >= 0 ==> r >= 0
    ensures cs <= 0 ==> r <= 0
  {
    if cs < 0 then
      var m: int := RoundHalfEven(-cs);
      -m
    else
      RoundHalfEven(cs)
  }

  /** The reaction time stored for a correct answer: rounded to a tenth of a
      second in main.py, the raw difference in PASAT.py. */
  function ReactionTime(v: Variant, elapsed: int): (r: int)
    ensures v.Legacy? ==> r == elapsed
    ensures v.Current? ==> r % 10 == 0 && elapsed - 5 <= r <= elapsed + 5
    ensures elapsed >= 0 ==> r >= 0
  {
    if v.Legacy? then elapsed else RoundToTenth(elapsed)
  }

  /** One entry of `results` with its entry of `reaction_times`. */
  datatype Record = Record(outcome: Outcome, reactionTime: int)

  /** The scoring of `_submit_answer`: no answer is 'N', an answer whose value
      is the expected sum is 'C' with its reaction time, any other answer is
      'I'; only a correct answer keeps a reaction time. */
  function Score(v: Variant, answer: string, sum: int, elapsed: int): (r: Record)
    requires IsNumeral(answer)
    ensures r.outcome == NotAnswered <==> answer == []
    ensures r.outcome == Correct <==> ParseInt(answer).Some? && ParseInt(answer).value == sum
    ensures r.outcome != Correct ==> r.reactionTime == 0
    ensures r.outcome == Correct ==> r.reactionTime == ReactionTime(v, elapsed)
  {
    if answer != [] then
      if DigitsValue(answer) == sum then Record(Correct, ReactionTime(v, elapsed)) else Record(Incorrect, 0)
    else
      Record(NotAnswered, 0)
  }

  /** `played[-1] + played[-2]`: the sum the current answer is scored against. */
  function Expected(s: Session): int
    requires |s.played| >= 2
  {
    s.played[|s.played| - 1] + s.played[|s.played| - 2]
  }

  /** The `results` list: one letter per record. */
  function Results(s: Session): (r: seq<Outcome>)
    ensures |r| == |s.records| && forall i :: 0 <= i < |r| ==> r[i] == s.records[i].outcome
  {
    seq(|s.records|, i requires 0 <= i < |s.records| => s.records[i].outcome)
  }

  /** The `reaction_times` list, always as long as `results`. */
  function ReactionTimes(s: Session): (r: seq<int>)
    ensures |r| == |Results(s)| && forall i :: 0 <= i < |r| ==> r[i] == s.records[i].reactionTime
  {
    seq(|s.records|, i requires 0 <= i < |s.records| => s.records[i].reactionTime)
  }

  /** `_submit_answer(answer)` at time `now`: appends one record, measured
      from `time_presented`. */
  function Submit(v: Variant, s: Session, answer: string, now: int): (r: Session)
    requires Valid(s) && IsNumeral(answer) && s.allowAnswer
    ensures Valid(r)
    ensures r.records == s.records + [Score(v, answer, Expected(s), now - s.presentedAt)]
    ensures r == s.(records := r.records)
  {
    s.(records := s.records + [Score(v, answer, Expected(s), now - s.presentedAt)])
  }

  /** The text of the answer button labelled `value`: `_n(str(value))`. */
  function ButtonText(v: Variant, value: nat): (r: string)
    ensures r != [] && IsNumeral(r) && ParseInt(r) == Some(value)
  {
    ParseDecimalString(value);
    Localise(Script(v), DecimalString(value))
  }

  /** `_on_click_answer`: ignored before two numbers have been played and
      after this interval's answer; otherwise latches the interval and scores
      the button's number. */
  function OnClick(v: Variant, s: Session, value: nat, now: int): (r: Session)
    requires Valid(s)
    ensures Valid(r)
    ensures !s.allowAnswer || s.answered ==> r == s
    ensures s.allowAnswer && !s.answered ==>
      && r.answered
      && r.records == s.records + [Score(v, ButtonText(v, value), Expected(s), now - s.presentedAt)]
      && r.played == s.played && r.typed == s.typed && r.presentedAt == s.presentedAt
  {
    if !s.allowAnswer then s
    else if !s.answered then Submit(v, s.(answered := true), ButtonText(v, value), now)
    else s
  }

  /** `current_typed_answer[:-1]`. */
  function DropLast(typed: string): (r: string)
    ensures |r| == if typed == [] then 0 else |typed| - 1
    ensures r == typed[..|r|]
  {
    if typed == [] then [] else typed[..|typed| - 1]
  }

  predicate IsDigitKey(code: int) {
    Key0 <= code <= Key9
  }

  /** The last branch of `keyPressEvent`: a digit key adds its digit, in the
      display script, while fewer than two are typed; other keys do nothing. */
  function TypeKey(v: Variant, typed: string, code: int): (r: string)
    requires IsNumeral(typed)
    ensures IsNumeral(r) && |r| <= if |typed| < 2 then |typed| + 1 else |typed|
    ensures IsDigitKey(code) && |typed| < 2 ==>
      |r| == |typed| + 1 && r[..|typed|] == typed && DigitValue(r[|typed|]) == Some(code - Key0)
    ensures !(IsDigitKey(code) && |typed| < 2) ==> r == typed
  {
    if IsDigitKey(code) && |typed| < 2 then
      var digit := Localise(Script(v), [AsciiDigit(code - Key0)]);
      assert ParseInt(digit) == ParseInt([AsciiDigit(code - Key0)]);
      assert DigitsValue([AsciiDigit(code - Key0)]) == 10 * DigitsValue([]) + (code - Key0);
      assert DigitsValue(digit) == 10 * DigitsValue([]) + DigitValue(digit[0]).value;
      var r := typed + digit;
      assert r[..|typed|] == typed;
      r
    else
      typed
  }

  /** `keyPressEvent`: ignored before two numbers have been played;
      Backspace drops the last typed character; Q submits a non-empty typed
      answer if the interval has no answer yet; a digit key types a digit. */
  function OnKey(v: Variant, s: Session, code: int, now: int): (r: Session)
    requires Valid(s)
    ensures Valid(r)
    ensures !s.allowAnswer ==> r == s
    ensures s.allowAnswer && code == KeyBackspace ==> r == s.(typed := DropLast(s.typed))
    ensures |r.records| == |s.records| + 1 <==>
      s.allowAnswer && code == KeyQ && s.typed != [] && !s.answered
    ensures |r.records| == |s.records| + 1 ==>
      && r.records == s.records + [Score(v, s.typed, Expected(s), now - s.presentedAt)]
      && r == s.(answered := true, records := r.records)
    ensures s.allowAnswer && code != KeyBackspace && code != KeyQ ==>
      r == s.(typed := TypeKey(v, s.typed, code))
    ensures !IsDigitKey(code) && code != KeyBackspace && code != KeyQ ==> r == s
    ensures s.allowAnswer && code == KeyQ && !(s.typed != [] && !s.answered) ==> r == s
  {
    if !s.allowAnswer then s
    else if code == KeyBackspace then s.(typed := DropLast(s.typed))
    else if code == KeyQ && s.typed != [] && !s.answered then Submit(v, s, s.typed, now).(answered := true)
    else s.(typed := TypeKey(v, s.typed, code))
  }

  /** `_update_number(n, t)`: first the pending answer of the interval that
      ends now is scored, if none was given, against the previous two
      numbers and the previous presentation time; then the interval state is
      cleared and `n` becomes the latest number, presented at `t`. */
  function OnNumber(v: Variant, s: Session, n: int, t: int): (r: Session)
    requires Valid(s)
    ensures Valid(r)
    ensures r.played == s.played + [n] && r.presentedAt == t
    ensures r.typed == [] && !r.answered
    ensures s.allowAnswer && !s.answered ==>
      r.records == s.records + [Score(v, s.typed, Expected(s), t - s.presentedAt)]
    ensures !(s.allowAnswer && !s.answered) ==> r.records == s.records
  {
    var flushed := if s.allowAnswer && !s.answered then Submit(v, s, s.typed, t) else s;
    var played := flushed.played + [n];
    flushed.(answered := false, typed := "", presentedAt := t, played := played,
             allowAnswer := if |played| >= 2 then true else flushed.allowAnswer)
  }

  /** The handler an event goes to.  Each event appends at most one record
      and leaves the earlier ones as they were; only a number extends the
      list of played numbers. */
  function Step(v: Variant, s: Session, e: Event): (r: Session)
    requires Valid(s)
    ensures Valid(r)
    ensures r.played == s.played + (if e.Number? then [e.n] else [])
    ensures s.records <= r.records && |r.records| <= |s.records| + 1
  {
    match e
    case Number(n, t) => OnNumber(v, s, n, t)
    case Click(value, t) => OnClick(v, s, value, t)
    case Key(code, t) => OnKey(v, s, code, t)
  }

  /** The state after handling the events `es` in order, the last one last. */
  function Run(v: Variant, s: Session, es: seq<Event>): (r: Session)
    requires Valid(s)
    ensures Valid(r)
    decreases |es|
  {
    if es == [] then s else Step(v, Run(v, s, es[..|es| - 1]), es[|es| - 1])
  }

  lemma RunSnoc(v: Variant, s: Session, es: seq<Event>, e: Event)
    requires Valid(s)
    ensures Run(v, s, es + [e]) == Step(v, Run(v, s, es), e)
  {
    assert (es + [e])[..|es|] == es;
  }

  lemma {:induction false} RunConcat(v: Variant, s: Session, a: seq<Event>, b: seq<Event>)
    requires Valid(s)
    ensures Run(v, s, a + b) == Run(v, Run(v, s, a), b)
    decreases |b|
  {
    if b == [] {
      assert a + b == a;
    } else {
      RunConcat(v, s, a, b[..|b| - 1]);
      assert (a + b)[..|a + b| - 1] == a + b[..|b| - 1];
    }
  }

  /** The numbers among the events, in order. */
  function Numbers(es: seq<Event>): (r: seq<int>)
    ensures |r| <= |es|
  {
    if es == [] then [] else Numbers(es[..|es| - 1]) + (if es[|es| - 1].Number? then [es[|es| - 1].n] else [])
  }

  /** `played_numbers` is exactly the numbers delivered, in order. */
  lemma {:induction false} PlayedAreNumbers(v: Variant, s: Session, es: seq<Event>)
    requires Valid(s)
    ensures Run(v, s, es).played == s.played + Numbers(es)
    decreases |es|
  {
    if es != [] {
      PlayedAreNumbers(v, s, es[..|es| - 1]);
    }
  }

  /** Records are only ever appended: what was recorded stays as it was, and
      there are never more new records than events. */
  lemma {:induction false} RecordsOnlyGrow(v: Variant, s: Session, es: seq<Event>)
    requires Valid(s)
    ensures s.records <= Run(v, s, es).records
    ensures |Run(v, s, es).records| <= |s.records| + |es|
    decreases |es|
  {
    if es != [] {
      RecordsOnlyGrow(v, s, es[..|es| - 1]);
    }
  }

  /** A record as `_submit_answer` makes it: only a correct answer keeps a
      non-zero reaction time, and main.py keeps whole tenths of a second. */
  predicate WellScored(v: Variant, r: Record) {
    && (r.reactionTime != 0 ==> r.outcome == Correct)
    && (v.Current? ==> r.reactionTime % 10 == 0)
  }

  predicate AllWellScored(v: Variant, records: seq<Record>) {
    forall i :: 0 <= i < |records| ==> WellScored(v, records[i])
  }

  /** A record appended by a handler is well scored. */
  lemma ScoredAppend(v: Variant, records: seq<Record>, answer: string, sum: int, elapsed: int)
    requires AllWellScored(v, records) && IsNumeral(answer)
    ensures AllWellScored(v, records + [Score(v, answer, sum, elapsed)])
  {
    var rs := records + [Score(v, answer, sum, elapsed)];
    assert forall i :: 0 <= i < |records| ==> rs[i] == records[i];
  }

  /** Every handler keeps the records well scored. */
  lemma StepKeepsScored(v: Variant, s: Session, e: Event)
    requires Valid(s) && AllWellScored(v, s.records)
    ensures AllWellScored(v, Step(v, s, e).records)
  {
    match e
    case Number(n, t) =>
      if s.allowAnswer && !s.answered {
        ScoredAppend(v, s.records, s.typed, Expected(s), t - s.presentedAt);
      }
    case Click(value, t) =>
      if s.allowAnswer && !s.answered {
        ScoredAppend(v, s.records, ButtonText(v, value), Expected(s), t - s.presentedAt);
      }
    case Key(code, t) =>
      if |OnKey(v, s, code, t).records| == |s.records| + 1 {
        ScoredAppend(v, s.records, s.typed, Expected(s), t - s.presentedAt);
      }
  }

  /** A run never records a non-zero reaction time for an outcome other than
      C, so `non_zero_mean` of `reaction_times` averages only correct
      answers.  A correct answer whose time rounds to 0 is left out of it. */
  lemma {:induction false} RunKeepsScored(v: Variant, s: Session, es: seq<Event>)
    requires Valid(s) && AllWellScored(v, s.records)
    ensures AllWellScored(v, Run(v, s, es).records)
    decreases |es|
  {
    if es != [] {
      RunKeepsScored(v, s, es[..|es| - 1]);
      StepKeepsScored(v, Run(v, s, es[..|es| - 1]), es[|es| - 1]);
    }
  }

  /** Before the second number arrives, buttons and keys change nothing. */
  lemma {:induction false} IgnoredBeforeTwoNumbers(v: Variant, s: Session, es: seq<Event>)
    requires Valid(s) && |s.played| < 2 && UserOnly(es)
    ensures Run(v, s, es) == s
    decreases |es|
  {
    if es != [] {
      var init := es[..|es| - 1];
      assert UserOnly(init) by {
        forall i | 0 <= i < |init| ensures !init[i].Number? { assert init[i] == es[i]; }
      }
      IgnoredBeforeTwoNumbers(v, s, init);
    }
  }

  /** The typed-answer editor of `keyPressEvent`, for every key but a Q that
      submits. */
  function Edit(v: Variant, typed: string, code: int): (r: string)
    requires IsNumeral(typed)
    ensures IsNumeral(r)
    ensures |typed| <= 2 ==> |r| <= 2
  {
    if code == KeyBackspace then DropLast(typed) else TypeKey(v, typed, code)
  }

  /** The answer label after event `e`: keys edit it, clicks leave it. */
  function EditBy(v: Variant, typed: string, e: Event): (r: string)
    requires IsNumeral(typed) && |typed| <= 2
    ensures IsNumeral(r) && |r| <= 2
  {
    match e
    case Key(code, _) => Edit(v, typed, code)
    case _ => typed
  }

  /** The typed answer after all key presses of `es`, starting from `typed`. */
  function TypedAfter(v: Variant, typed: string, es: seq<Event>): (r: string)
    requires IsNumeral(typed) && |typed| <= 2
    ensures IsNumeral(r) && |r| <= 2
    decreases |es|
  {
    if es == [] then typed else EditBy(v, TypedAfter(v, typed, es[..|es| - 1]), es[|es| - 1])
  }

  /** An answer and the time it was given. */
  datatype Commit = Commit(answer: string, at: int)

  /** The answer event `e` commits in an open interval whose label shows
      `typed`: a click commits its button's number, Q commits a non-empty
      label, anything else commits nothing. */
  function CommitOf(v: Variant, typed: string, e: Event): (r: Option<Commit>)
    requires IsNumeral(typed)
    ensures r.Some? ==> IsNumeral(r.value.answer) && r.value.answer != []
  {
    match e
    case Click(value, t) => Some(Commit(ButtonText(v, value), t))
    case Key(code, t) => if code == KeyQ && typed != [] then Some(Commit(typed, t)) else None
    case Number(_, _) => None
  }

  /** An independent reading of the interval rule, for the clicks and keys
      of one interval starting with `typed` in the answer label: the answer
      is the first click, or the first Q pressed while something is typed,
      whichever comes first. */
  function FirstCommit(v: Variant, typed: string, es: seq<Event>): (r: Option<Commit>)
    requires IsNumeral(typed) && |typed| <= 2
    ensures r.Some? ==> IsNumeral(r.value.answer) && r.value.answer != []
    decreases |es|
  {
    if es == [] then None
    else
      var init := es[..|es| - 1];
      match FirstCommit(v, typed, init)
      case Some(c) => Some(c)
      case None => CommitOf(v, TypedAfter(v, typed, init), es[|es| - 1])
  }

  lemma ReadingSnoc(v: Variant, typed: string, es: seq<Event>, e: Event)
    requires IsNumeral(typed) && |typed| <= 2
    ensures TypedAfter(v, typed, es + [e]) == EditBy(v, TypedAfter(v, typed, es), e)
    ensures FirstCommit(v, typed, es + [e])
         == if FirstCommit(v, typed, es).Some? then FirstCommit(v, typed, es) else CommitOf(v, TypedAfter(v, typed, es), e)
  {
    assert (es + [e])[..|es|] == es;
  }

  /** The state right after an interval's answer `c` is accepted. */
  function Answered(v: Variant, s: Session, c: Commit): (r: Session)
    requires Valid(s) && IsNumeral(c.answer) && s.allowAnswer
    ensures Valid(r) && r.answered
    ensures r.records == s.records + [Score(v, c.answer, Expected(s), c.at - s.presentedAt)]
    ensures r.played == s.played && r.presentedAt == s.presentedAt && r.typed == s.typed
  {
    Submit(v, s, c.answer, c.at).(answered := true)
  }

  /** What the first-answer-wins reading predicts for the input `es` of an
      open interval: the first committed answer recorded, if any, and the
      answer label edited by every key. */
  function Latched(v: Variant, s: Session, es: seq<Event>): (r: Session)
    requires Valid(s) && s.allowAnswer && !s.answered
    ensures Valid(r)
  {
    var typed := TypedAfter(v, s.typed, es);
    match FirstCommit(v, s.typed, es)
    case Some(c) => Answered(v, s, c).(typed := typed)
    case None => s.(typed := typed)
  }

  /** Once an interval is answered, buttons and Q do nothing until the next
      number; only the typed answer can still be edited. */
  lemma {:induction false} AnsweredIntervalOnlyEdits(v: Variant, s: Session, es: seq<Event>)
    requires Valid(s) && s.answered && UserOnly(es)
    ensures Run(v, s, es) == s.(typed := TypedAfter(v, s.typed, es))
    decreases |es|
  {
    if es != [] {
      var init := es[..|es| - 1];
      assert UserOnly(init) by {
        forall i | 0 <= i < |init| ensures !init[i].Number? { assert init[i] == es[i]; }
      }
      AnsweredIntervalOnlyEdits(v, s, init);
    }
  }

  /** In an answered interval a click or key only edits the answer label. */
  lemma StepAnswered(v: Variant, s: Session, e: Event)
    requires Valid(s) && s.answered && !e.Number?
    ensures Step(v, s, e) == s.(typed := EditBy(v, s.typed, e))
  {
  }

  /** In an open interval a click or key commits what `CommitOf` says and
      edits the answer label. */
  lemma StepOpen(v: Variant, s: Session, e: Event)
    requires Valid(s) && s.allowAnswer && !s.answered && !e.Number?
    ensures Step(v, s, e) == match CommitOf(v, s.typed, e)
      case Some(c) => Answered(v, s, c).(typed := EditBy(v, s.typed, e))
      case None => s.(typed := EditBy(v, s.typed, e))
  {
  }

  lemma AnsweredIgnoresTyped(v: Variant, s: Session, typed: string, c: Commit)
    requires Valid(s) && Valid(s.(typed := typed)) && IsNumeral(c.answer) && s.allowAnswer
    ensures Answered(v, s.(typed := typed), c) == Answered(v, s, c).(typed := typed)
  {
  }

  /** One more click or key in an open interval keeps the session where the
      first-answer-wins reading says it is. */
  lemma LatchedStep(v: Variant, s: Session, es: seq<Event>, e: Event)
    requires Valid(s) && s.allowAnswer && !s.answered && !e.Number?
    ensures Step(v, Latched(v, s, es), e) == Latched(v, s, es + [e])
  {
    ReadingSnoc(v, s.typed, es, e);
    var typed := TypedAfter(v, s.typed, es);
    var after := EditBy(v, typed, e);
    match FirstCommit(v, s.typed, es)
    case Some(c) =>
      StepAnswered(v, Answered(v, s, c).(typed := typed), e);
    case None =>
      var open := s.(typed := typed);
      StepOpen(v, open, e);
      match CommitOf(v, typed, e)
      case Some(c) =>
        AnsweredIgnoresTyped(v, s, typed, c);
        assert Answered(v, open, c).(typed := after) == Answered(v, s, c).(typed := after);
      case None =>
  }

  /** The session's latch agrees with the first-answer-wins reading: during
      an open interval the session records exactly the first committed
      answer, and keys edit the answer label throughout. */
  lemma {:induction false} LatchIsFirstCommit(v: Variant, s: Session, es: seq<Event>)
    requires Valid(s) && s.allowAnswer && !s.answered && UserOnly(es)
    ensures Run(v, s, es) == Latched(v, s, es)
    decreases |es|
  {
    if es != [] {
      var init := es[..|es| - 1];
      var e := es[|es| - 1];
      assert UserOnly(init) by {
        forall i | 0 <= i < |init| ensures !init[i].Number? { assert init[i] == es[i]; }
      }
      LatchIsFirstCommit(v, s, init);
      LatchedStep(v, s, init, e);
      assert init + [e] == es;
    }
  }

  /** The answer an interval ends with: its first committed answer, or else
      whatever is typed when the next number arrives at `close`. */
  function IntervalAnswer(v: Variant, es: seq<Event>, close: int): (r: Commit)
    ensures IsNumeral(r.answer)
  {
    match FirstCommit(v, "", es)
    case Some(c) => c
    case None => Commit(TypedAfter(v, "", es), close)
  }

  /** The record of an interval opened at `open` by a number whose sum with
      its predecessor is `sum`, with user input `es`, closed at `close`. */
  function IntervalRecord(v: Variant, es: seq<Event>, sum: int, open: int, close: int): Record {
    var c := IntervalAnswer(v, es, close);
    Score(v, c.answer, sum, c.at - open)
  }

  /** The record the first committed answer of an interval adds, if there
      is one, scored against `sum` and measured from `open`. */
  function CommittedRecords(v: Variant, es: seq<Event>, sum: int, open: int): (r: seq<Record>)
    ensures |r| <= 1
  {
    match FirstCommit(v, "", es)
    case Some(c) => [Score(v, c.answer, sum, c.at - open)]
    case None => []
  }

  /** A lone click commits its button's number. */
  lemma ClickCommits(v: Variant, es: seq<Event>, value: nat, t: int, sum: int, open: int)
    requires es == [Click(value, t)]
    ensures CommittedRecords(v, es, sum, open) == [Score(v, ButtonText(v, value), sum, t - open)]
  {
    ClickIsFirstCommit(v, es, value, t);
  }

  lemma ClickIsFirstCommit(v: Variant, es: seq<Event>, value: nat, t: int)
    requires es == [Click(value, t)]
    ensures FirstCommit(v, "", es) == Some(Commit(ButtonText(v, value), t))
  {
    assert es[..0] == [];
    assert FirstCommit(v, "", es[..0]) == None;
  }

  /** While the interval is open, the records are the earlier ones and the
      record of the interval's first committed answer, if any. */
  lemma LatchedRecords(v: Variant, s: Session, es: seq<Event>, sum: int, open: int)
    requires Valid(s) && s.allowAnswer && !s.answered && s.typed == []
    requires sum == Expected(s) && open == s.presentedAt
    ensures Latched(v, s, es).records == s.records + CommittedRecords(v, es, sum, open)
  {
  }

  /** The state once the next number `n` arrives at `close` in an interval
      whose answer was `c`. */
  function Closed(v: Variant, s: Session, c: Commit, n: int, close: int): (r: Session)
    requires Valid(s) && IsNumeral(c.answer) && s.allowAnswer
    ensures Valid(r)
    ensures r.records == s.records + [Score(v, c.answer, Expected(s), c.at - s.presentedAt)]
    ensures r.played == s.played + [n] && r.presentedAt == close && !r.answered && r.typed == []
  {
    var a := Answered(v, s, c);
    a.(answered := false, typed := [], presentedAt := close, played := s.played + [n])
  }

  /** Closing an interval with its answer appends the interval's record,
      scored against the interval's two numbers. */
  lemma ClosedRecordIs(v: Variant, s: Session, es: seq<Event>, n: int, close: int, sum: int, open: int)
    requires Valid(s) && s.allowAnswer && sum == Expected(s) && open == s.presentedAt
    ensures Closed(v, s, IntervalAnswer(v, es, close), n, close).records == s.records + [IntervalRecord(v, es, sum, open, close)]
  {
  }

  /** A number arriving after the interval's answer adds no record. */
  lemma NumberAfterAnswer(v: Variant, s: Session, c: Commit, typed: string, n: int, close: int)
    requires Valid(s) && s.allowAnswer && IsNumeral(c.answer)
    requires Valid(Answered(v, s, c).(typed := typed))
    ensures OnNumber(v, Answered(v, s, c).(typed := typed), n, close) == Closed(v, s, c, n, close)
  {
  }

  /** A number arriving in an unanswered interval scores what is typed. */
  lemma NumberFlushesTyped(v: Variant, s: Session, typed: string, n: int, close: int)
    requires Valid(s) && s.allowAnswer && !s.answered && Valid(s.(typed := typed))
    ensures OnNumber(v, s.(typed := typed), n, close) == Closed(v, s, Commit(typed, close), n, close)
  {
  }

  /** The next number closes an interval with the interval's answer. */
  lemma LatchedThenNumber(v: Variant, s: Session, es: seq<Event>, n: int, close: int)
    requires Valid(s) && s.allowAnswer && !s.answered && s.typed == []
    ensures OnNumber(v, Latched(v, s, es), n, close) == Closed(v, s, IntervalAnswer(v, es, close), n, close)
  {
    var typed := TypedAfter(v, s.typed, es);
    match FirstCommit(v, s.typed, es)
    case Some(c) =>
      NumberAfterAnswer(v, s, c, typed, n, close);
    case None =>
      NumberFlushesTyped(v, s, typed, n, close);
  }

  /** The record an interval gets once the next number arrives: the first
      committed answer if there was one, the typed answer at `close`
      otherwise, each scored against the interval's two numbers. */
  lemma IntervalClosed(v: Variant, s: Session, es: seq<Event>, n: int, close: int)
    requires Valid(s) && s.allowAnswer && !s.answered && s.typed == [] && UserOnly(es)
    ensures Run(v, s, es + [Number(n, close)]) == Closed(v, s, IntervalAnswer(v, es, close), n, close)
  {
    RunSnoc(v, s, es, Number(n, close));
    LatchIsFirstCommit(v, s, es);
    LatchedThenNumber(v, s, es, n, close);
  }
}
