/** The streak counter of utils/streak-counter.ts.

    `currentStreak` takes completion dates, most recent first, and counts the
    current run of consecutive days. Dates are day numbers and the clock's
    "today" is a parameter. The code is modelled as written, quirks included:
    a list that starts yesterday gets no +1 for its head.
 */
module Streak {
  import opened Results
  import opened MealTypes

  /** `arr[i]`: an index past the end reads as `undefined`, which parses to an
      invalid date. */
  function DateAt(dates: seq<Day>, i: nat): (d: Option<Day>)
    ensures d.Some? <==> i < |dates|
    ensures d.Some? ==> d.value == dates[i]
  {
    if i < |dates| then Some(dates[i]) else None
  }

  /** The loop's test at index `i`: the date at `i` is exactly one day after the
      date at `i + 1`. An invalid date gives NaN, and NaN equals nothing, so a
      missing successor never passes. */
  predicate StepsOneDay(dates: seq<Day>, i: nat) {
    match (DateAt(dates, i), DateAt(dates, i + 1))
    case (Some(cur), Some(next)) => cur - next == 1
    case _ => false
  }

  /** The number of consecutive one-day steps starting at index `from`. */
  function LeadingSteps(dates: seq<Day>, from: nat): (n: nat)
    ensures forall i :: from <= i < from + n ==> StepsOneDay(dates, i)
    ensures !StepsOneDay(dates, from + n)
    ensures n == 0 || from + n < |dates|
    decreases |dates| - from
  {
    if StepsOneDay(dates, from) then 1 + LeadingSteps(dates, from + 1) else 0
  }

  /** The closed form of `currentStreak`: 1 + the leading steps when the list
      starts today, the leading steps alone when it starts yesterday, else 0. */
  function CurrentStreak(dates: seq<Day>, today: Day): (r: nat)
    ensures r <= |dates|
    ensures dates == [] ==> r == 0
    ensures dates != [] && dates[0] != today ==> r < |dates|
    ensures dates != [] && dates[0] != today && dates[0] != today - 1 ==> r == 0
  {
    match DateAt(dates, 0)
    case None => 0
    case Some(head) =>
      if head == today then 1 + LeadingSteps(dates, 0)
      else if head == today - 1 then LeadingSteps(dates, 0)
      else 0
  }

  /** `currentStreak` statement by statement. The result is `None` where the
      source would fall off the end of its loop and return `undefined`; the
      postcondition shows that never happens and that the loop computes the
      closed form. */
  method CountStreak(dates: seq<Day>, today: Day) returns (r: Option<nat>)
    ensures r == Some(CurrentStreak(dates, today))
  {
    var counter: nat := 0;
    var head := DateAt(dates, 0);
    if head == Some(today) {
      counter := counter + 1;
    } else if counter == 0 && !(head.Some? && today - (head.value + 1) == 0) {
      return Some(0);
    }
    ghost var base := counter;
    var i := 0;
    while i < |dates|
      invariant 0 <= i <= |dates|
      invariant forall j :: 0 <= j < i ==> StepsOneDay(dates, j)
      invariant i > 0 ==> StepsOneDay(dates, i - 1)
      invariant counter == base + i
    {
      if StepsOneDay(dates, i) {
        counter := counter + 1;
      } else {
        assert LeadingSteps(dates, 0) == i by { LeadingStepsExact(dates, 0, i); }
        return Some(counter);
      }
      i := i + 1;
    }
    assert false;
    return None;
  }

  /** `LeadingSteps` is the only count with "all steps before it pass, the one at
      it fails". */
  lemma {:induction false} LeadingStepsExact(dates: seq<Day>, from: nat, k: nat)
    requires forall i :: from <= i < from + k ==> StepsOneDay(dates, i)
    requires !StepsOneDay(dates, from + k)
    ensures LeadingSteps(dates, from) == k
    decreases k
  {
    if k > 0 {
      assert StepsOneDay(dates, from);
      LeadingStepsExact(dates, from + 1, k - 1);
    }
  }

  /** A head that is neither today nor yesterday (a broken streak, a future
      date, or no date at all) gives 0. */
  lemma BrokenStreakIsZero(dates: seq<Day>, today: Day)
    requires DateAt(dates, 0) != Some(today) && DateAt(dates, 0) != Some(today - 1)
    ensures CurrentStreak(dates, today) == 0
  {
  }

  /** A list that starts today counts 1 for the head plus every leading step. */
  lemma {:induction false} StreakFromToday(dates: seq<Day>, today: Day, k: nat)
    requires dates != [] && dates[0] == today
    requires forall i :: 0 <= i < k ==> StepsOneDay(dates, i)
    requires !StepsOneDay(dates, k)
    ensures CurrentStreak(dates, today) == k + 1
  {
    LeadingStepsExact(dates, 0, k);
  }

  /** A list that starts yesterday counts only the leading steps: no +1. */
  lemma {:induction false} StreakFromYesterday(dates: seq<Day>, today: Day, k: nat)
    requires dates != [] && dates[0] == today - 1
    requires forall i :: 0 <= i < k ==> StepsOneDay(dates, i)
    requires !StepsOneDay(dates, k)
    ensures CurrentStreak(dates, today) == k
  {
    LeadingStepsExact(dates, 0, k);
  }

  /** A fully consecutive list ending at today counts every date. */
  lemma {:induction false} ConsecutiveDaysCountAll(dates: seq<Day>, today: Day)
    requires dates != [] && dates[0] == today
    requires forall i :: 0 <= i < |dates| ==> dates[i] == today - i
    ensures CurrentStreak(dates, today) == |dates|
  {
    forall i | 0 <= i < |dates| - 1 ensures StepsOneDay(dates, i) {
      assert dates[i] - dates[i + 1] == 1;
    }
    LeadingStepsExact(dates, 0, |dates| - 1);
  }

  /** The scan stops at the first pair that is not one day apart. */
  lemma {:induction false} LeadingStepsIgnoreSuffix(dates: seq<Day>, tail: seq<Day>, from: nat)
    requires from + LeadingSteps(dates, from) + 1 < |dates|
    ensures LeadingSteps(dates + tail, from) == LeadingSteps(dates, from)
    decreases |dates| - from
  {
    var both := dates + tail;
    assert StepsOneDay(both, from) == StepsOneDay(dates, from) by {
      assert from + 1 < |dates|;
      assert both[from] == dates[from] && both[from + 1] == dates[from + 1];
    }
    if StepsOneDay(dates, from) {
      LeadingStepsIgnoreSuffix(dates, tail, from + 1);
    }
  }

  /** Nothing after the break point affects the streak: once some adjacent pair
      (a gap, a repeated date, an ascending pair) fails the one-day test inside
      `dates`, appending any dates changes nothing. */
  lemma {:induction false} StreakIgnoresDatesAfterBreak(dates: seq<Day>, tail: seq<Day>, today: Day)
    requires LeadingSteps(dates, 0) + 1 < |dates|
    ensures CurrentStreak(dates + tail, today) == CurrentStreak(dates, today)
  {
    LeadingStepsIgnoreSuffix(dates, tail, 0);
    assert (dates + tail)[0] == dates[0];
  }

  /** The worked examples: [today] gives 1, three consecutive days give 3, a gap
      after today gives 1, [yesterday] gives 0 and [yesterday, the day before]
      gives 1, a head three days back gives 0, and [] gives 0. */
  lemma StreakExamples(today: Day)
    ensures CurrentStreak([today], today) == 1
    ensures CurrentStreak([today, today - 1, today - 2], today) == 3
    ensures CurrentStreak([today, today - 2], today) == 1
    ensures CurrentStreak([today - 1], today) == 0
    ensures CurrentStreak([today - 1, today - 2], today) == 1
    ensures CurrentStreak([today - 3], today) == 0
    ensures CurrentStreak([], today) == 0
  {
    assert LeadingSteps([today], 0) == 0;
    var three := [today, today - 1, today - 2];
    assert StepsOneDay(three, 0) && StepsOneDay(three, 1) && !StepsOneDay(three, 2);
    assert LeadingSteps([today, today - 2], 0) == 0;
    assert LeadingSteps([today - 1], 0) == 0;
    var two := [today - 1, today - 2];
    assert StepsOneDay(two, 0) && !StepsOneDay(two, 1);
  }
}
