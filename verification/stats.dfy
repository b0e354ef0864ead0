/**
 * The result summary shown when a run finishes: counts of each outcome, the
 * percentage of correct answers and the mean reaction time over the non-zero
 * reaction times (`_finished` in main.py and PASAT.py, `non_zero_mean` in
 * helpers.py).  Reaction times are integer centiseconds.
 */
module Stats {
  import opened Wrappers

  /** The letters 'C', 'I' and 'N' of the results list. */
  datatype Outcome = Correct | Incorrect | NotAnswered

  /** `results.count(o)`. */
  function Count(rs: seq<Outcome>, o: Outcome): (n: nat)
    ensures n <= |rs|
  {
    if rs == [] then 0 else Count(rs[..|rs| - 1], o) + (if rs[|rs| - 1] == o then 1 else 0)
  }

  /** Every entry has exactly one of the three outcomes. */
  lemma {:induction false} CountsPartition(rs: seq<Outcome>)
    ensures Count(rs, Correct) + Count(rs, Incorrect) + Count(rs, NotAnswered) == |rs|
  {
    if rs != [] {
      CountsPartition(rs[..|rs| - 1]);
    }
  }

  /** A count is full exactly when every entry has the outcome, and zero
      exactly when none has it. */
  lemma {:induction false} CountExtremes(rs: seq<Outcome>, o: Outcome)
    ensures Count(rs, o) == |rs| <==> forall i :: 0 <= i < |rs| ==> rs[i] == o
    ensures Count(rs, o) == 0 <==> forall i :: 0 <= i < |rs| ==> rs[i] != o
  {
    if rs != [] {
      var init := rs[..|rs| - 1];
      CountExtremes(init, o);
      assert forall i :: 0 <= i < |init| ==> init[i] == rs[i];
    }
  }

  /** The non-zero entries, in order. */
  function NonZero(xs: seq<int>): (ys: seq<int>)
    ensures |ys| <= |xs|
    ensures forall i :: 0 <= i < |ys| ==> ys[i] != 0
  {
    if xs == [] then []
    else NonZero(xs[..|xs| - 1]) + (if xs[|xs| - 1] != 0 then [xs[|xs| - 1]] else [])
  }

  function Sum(xs: seq<int>): int {
    if xs == [] then 0 else Sum(xs[..|xs| - 1]) + xs[|xs| - 1]
  }

  /** The mean of the non-zero entries, 0 when there are none. */
  function NonZeroMean(xs: seq<int>): real {
    var nz := NonZero(xs);
    if |nz| == 0 then 0.0 else Sum(nz) as real / |nz| as real
  }

  /** `non_zero_mean`: one pass that adds up and counts the non-zero entries,
      then divides, returning 0 for a list without non-zero entries. */
  method NonZeroMeanLoop(lst: seq<int>) returns (m: real)
    ensures m == NonZeroMean(lst)
  {
    var summation := 0;
    var count := 0;
    var i := 0;
    while i < |lst|
      invariant 0 <= i <= |lst|
      invariant summation == Sum(NonZero(lst[..i]))
      invariant count == |NonZero(lst[..i])|
    {
      assert lst[..i + 1][..i] == lst[..i];
      var nz := NonZero(lst[..i]);
      if lst[i] != 0 {
        assert NonZero(lst[..i + 1]) == nz + [lst[i]];
        assert (nz + [lst[i]])[..|nz|] == nz;
        summation := summation + lst[i];
        count := count + 1;
      } else {
        assert NonZero(lst[..i + 1]) == nz;
      }
      i := i + 1;
    }
    assert lst[..i] == lst;
    if count != 0 {
      m := summation as real / count as real;
    } else {
      m := 0.0;
    }
  }

  lemma {:induction false} NonZeroConcat(a: seq<int>, b: seq<int>)
    ensures NonZero(a + b) == NonZero(a) + NonZero(b)
  {
    if b != [] {
      var b' := b[..|b| - 1];
      NonZeroConcat(a, b');
      assert (a + b)[..|a + b| - 1] == a + b';
    } else {
      assert a + b == a;
    }
  }

  /** Inserting a zero anywhere leaves the mean unchanged. */
  lemma InsertZero(a: seq<int>, b: seq<int>)
    ensures NonZeroMean(a + [0] + b) == NonZeroMean(a + b)
  {
    NonZeroConcat(a + [0], b);
    NonZeroConcat(a, [0]);
    NonZeroConcat(a, b);
    assert [0][..0] == [];
    assert NonZero([0]) == [];
    assert a + [0] + b == (a + [0]) + b;
    assert NonZero(a + [0] + b) == NonZero(a + b);
  }

  /** Removing every zero leaves the mean unchanged. */
  lemma {:induction false} DropZeros(xs: seq<int>)
    ensures NonZero(NonZero(xs)) == NonZero(xs)
    ensures NonZeroMean(NonZero(xs)) == NonZeroMean(xs)
  {
    if xs != [] {
      var init := xs[..|xs| - 1];
      var last := xs[|xs| - 1];
      DropZeros(init);
      var tail := if last != 0 then [last] else [];
      NonZeroConcat(NonZero(init), tail);
      if last != 0 {
        assert NonZero(tail) == NonZero([]) + [last];
      } else {
        assert tail == [];
      }
    }
  }

  lemma {:induction false} SumBounds(ys: seq<int>, lo: int, hi: int)
    requires forall i :: 0 <= i < |ys| ==> lo <= ys[i] <= hi
    ensures lo * |ys| <= Sum(ys) <= hi * |ys|
  {
    if ys != [] {
      SumBounds(ys[..|ys| - 1], lo, hi);
    }
  }

  /** The mean lies between any lower and upper bounds of the non-zero
      entries, so between their minimum and maximum. */
  lemma MeanBetween(xs: seq<int>, lo: int, hi: int)
    requires NonZero(xs) != []
    requires forall i :: 0 <= i < |xs| && xs[i] != 0 ==> lo <= xs[i] <= hi
    ensures lo as real <= NonZeroMean(xs) <= hi as real
  {
    var nz := NonZero(xs);
    var n, total := |nz|, Sum(nz);
    assert NonZeroMean(xs) == total as real / n as real;
    assert lo * n <= total <= hi * n by {
      NonZeroWithin(xs, lo, hi);
      SumBounds(nz, lo, hi);
    }
    DivideBounds(total, n, lo, hi);
  }

  lemma ProductAsReal(a: int, b: int)
    ensures (a * b) as real == a as real * b as real
  {
  }

  lemma DivideBounds(total: int, n: int, lo: int, hi: int)
    requires n > 0 && lo * n <= total <= hi * n
    ensures lo as real <= total as real / n as real <= hi as real
  {
    ProductAsReal(lo, n);
    ProductAsReal(hi, n);
    RealDivideBounds(total as real, n as real, lo as real, hi as real);
  }

  lemma RealDivideBounds(s: real, n: real, lo: real, hi: real)
    requires n > 0.0 && lo * n <= s <= hi * n
    ensures lo <= s / n <= hi
  {
    assert s / n * n == s;
  }

  /** `100 * (c / n)` for `0 <= c <= n`, `0 < n`: a percentage that is 100
      exactly for `c == n` and 0 exactly for `c == 0`. */
  lemma PercentBounds(c: nat, n: nat)
    requires 0 < n && c <= n
    ensures var p := 100.0 * (c as real / n as real);
      && 0.0 <= p <= 100.0
      && (p == 100.0 <==> c == n)
      && (p == 0.0 <==> c == 0)
  {
    var q := c as real / n as real;
    assert q * n as real == c as real;
    DivideBounds(c, n, 0, 1);
    if q == 1.0 { assert c as real == n as real; }
    if q == 0.0 { assert c as real == 0.0; }
  }

  lemma {:induction false} NonZeroWithin(xs: seq<int>, lo: int, hi: int)
    requires forall i :: 0 <= i < |xs| && xs[i] != 0 ==> lo <= xs[i] <= hi
    ensures forall i :: 0 <= i < |NonZero(xs)| ==> lo <= NonZero(xs)[i] <= hi
  {
    if xs != [] {
      NonZeroWithin(xs[..|xs| - 1], lo, hi);
    }
  }

  /** The statistics of the results dialog; the mean reaction time is in
      centiseconds and None where the source would have no number. */
  datatype Summary = Summary(
    correct: nat,
    incorrect: nat,
    notAnswered: nat,
    correctPercent: real,
    meanReactionTime: Option<real>)

  /** What the results dialog shows of a results list: `results.count` of
      each letter and `100 * (C / len)`. */
  predicate Tallies(r: Summary, results: seq<Outcome>) {
    && results != []
    && r.correct == Count(results, Correct)
    && r.incorrect == Count(results, Incorrect)
    && r.notAnswered == Count(results, NotAnswered)
    && r.correctPercent == 100.0 * (Count(results, Correct) as real / |results| as real)
  }

  /** The counts and `100 * C / len` shared by both revisions. */
  function Tally(results: seq<Outcome>, mean: Option<real>): (r: Summary)
    requires results != []
    ensures r.correct == Count(results, Correct)
    ensures r.incorrect == Count(results, Incorrect)
    ensures r.notAnswered == Count(results, NotAnswered)
    ensures r.correctPercent == 100.0 * (Count(results, Correct) as real / |results| as real)
    ensures r.meanReactionTime == mean
    ensures r.correct + r.incorrect + r.notAnswered == |results|
    ensures 0.0 <= r.correctPercent <= 100.0
    ensures r.correctPercent == 100.0 <==> forall i :: 0 <= i < |results| ==> results[i] == Correct
    ensures r.correctPercent == 0.0 <==> forall i :: 0 <= i < |results| ==> results[i] != Correct
  {
    CountsPartition(results);
    CountExtremes(results, Correct);
    var c := Count(results, Correct);
    var n := |results|;
    PercentBounds(c, n);
    var pct := 100.0 * (c as real / n as real);
    Summary(c, Count(results, Incorrect), Count(results, NotAnswered), pct, mean)
  }

  /** `_finished` in main.py: nothing for an empty results list; otherwise the
      tally with `non_zero_mean` of the reaction times. */
  function Finish(results: seq<Outcome>, reactionTimes: seq<int>): (r: Option<Summary>)
    ensures r.None? <==> results == []
    ensures r.Some? ==> r.value.meanReactionTime == Some(NonZeroMean(reactionTimes))
    ensures r.Some? ==> Tallies(r.value, results)
    ensures r.Some? ==> r.value.correct + r.value.incorrect + r.value.notAnswered == |results|
  {
    if results == [] then None else Some(Tally(results, Some(NonZeroMean(reactionTimes))))
  }

  /** `_finished` in PASAT.py: the mean is numpy's mean of the non-zero
      reaction times, which has no value when there are none. */
  function LegacyFinish(results: seq<Outcome>, reactionTimes: seq<int>): (r: Option<Summary>)
    ensures r.None? <==> results == []
    ensures r.Some? ==> Tallies(r.value, results)
    ensures r.Some? ==> r.value.correct + r.value.incorrect + r.value.notAnswered == |results|
    ensures r.Some? ==> (r.value.meanReactionTime.Some? ==> r.value.meanReactionTime.value == NonZeroMean(reactionTimes))
    ensures r.Some? ==> (r.value.meanReactionTime.None? <==> forall i :: 0 <= i < |reactionTimes| ==> reactionTimes[i] == 0)
  {
    if results == [] then None
    else
      var mean := if NonZero(reactionTimes) == [] then None else Some(NonZeroMean(reactionTimes));
      NoNonZero(reactionTimes);
      Some(Tally(results, mean))
  }

  lemma {:induction false} NoNonZero(xs: seq<int>)
    ensures NonZero(xs) == [] <==> forall i :: 0 <= i < |xs| ==> xs[i] == 0
  {
    if xs != [] {
      var init := xs[..|xs| - 1];
      NoNonZero(init);
      assert forall i :: 0 <= i < |init| ==> init[i] == xs[i];
    }
  }
}
