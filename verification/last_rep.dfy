/** The "last rep" panel: the newest rep, the set's rounded mean velocity and
    the "since last rep" clock. */
module LastRep {
  import opened Wrappers
  import opened Text
  import opened Types

  /** The `lastRep` memo: the newest rep, or none for an empty list. */
  function LastRep(reps: seq<Rep>): (r: Option<Rep>)
    ensures r.Some? <==> |reps| > 0
    ensures r.Some? ==> r.value == reps[0] && r.value in reps
  {
    if |reps| > 0 then Some(reps[0]) else None
  }

  /** Sum of the average velocities that are present (lodash's `meanBy` skips
      `undefined`). */
  function VelocitySum(reps: seq<Rep>): nat {
    if |reps| == 0 then 0
    else reps[0].averageVelocity.GetOr(0) + VelocitySum(reps[1..])
  }

  /** Number of reps whose average velocity is present. */
  function PresentCount(reps: seq<Rep>): nat {
    if |reps| == 0 then 0
    else (if reps[0].averageVelocity.Some? then 1 else 0) + PresentCount(reps[1..])
  }

  /** What the set-average box shows: nothing for an empty set, `NaN` when no
      rep carries a velocity, or the rounded mean. */
  datatype SetAverage = Blank | NotANumber | Rounded(value: int)

  /** The `avgSetVelocity` memo: `Math.round` (half up) of the velocity sum
      over the number of reps. */
  function AvgSetVelocity(reps: seq<Rep>): (a: SetAverage)
    ensures a.Blank? <==> |reps| == 0
    ensures a.NotANumber? <==> |reps| > 0 && PresentCount(reps) == 0
    ensures a.Rounded? ==>
      2 * |reps| * a.value <= 2 * VelocitySum(reps) + |reps| < 2 * |reps| * a.value + 2 * |reps|
  {
    if |reps| == 0 then Blank
    else if PresentCount(reps) == 0 then NotANumber
    else Rounded((2 * VelocitySum(reps) + |reps|) / (2 * |reps|))
  }

  predicate VelocitiesWithin(reps: seq<Rep>, lo: int, hi: int) {
    forall i :: 0 <= i < |reps| ==>
      reps[i].averageVelocity.Some? && lo <= reps[i].averageVelocity.value <= hi
  }

  lemma {:induction false} SumWithin(reps: seq<Rep>, lo: int, hi: int)
    requires VelocitiesWithin(reps, lo, hi)
    ensures |reps| * lo <= VelocitySum(reps) <= |reps| * hi
    ensures PresentCount(reps) == |reps|
  {
    if |reps| > 0 {
      assert VelocitiesWithin(reps[1..], lo, hi) by {
        forall i | 0 <= i < |reps[1..]|
          ensures reps[1..][i] == reps[i + 1]
        {
        }
      }
      SumWithin(reps[1..], lo, hi);
      assert |reps| * lo == lo + (|reps| - 1) * lo;
      assert |reps| * hi == hi + (|reps| - 1) * hi;
    }
  }

  lemma LessByFactor(k: int, x: int, y: int)
    requires k > 0 && k * x < k * y
    ensures x < y
  {
  }

  /** When every rep carries a velocity between `lo` and `hi`, the shown
      average is a number between `lo` and `hi`. */
  lemma AverageWithinRange(reps: seq<Rep>, lo: int, hi: int)
    requires |reps| > 0
    requires VelocitiesWithin(reps, lo, hi)
    ensures AvgSetVelocity(reps).Rounded?
    ensures lo <= AvgSetVelocity(reps).value <= hi
  {
    SumWithin(reps, lo, hi);
    RoundedMeanWithin(|reps|, VelocitySum(reps), AvgSetVelocity(reps).value, lo, hi);
  }

  /** A half-up rounded mean of values between `lo` and `hi` is between them. */
  lemma RoundedMeanWithin(n: nat, sum: int, v: int, lo: int, hi: int)
    requires n > 0
    requires n * lo <= sum <= n * hi
    requires 2 * n * v <= 2 * sum + n < 2 * n * v + 2 * n
    ensures lo <= v <= hi
  {
    assert 2 * n * (hi + 1) == 2 * (n * hi) + 2 * n;
    LessByFactor(2 * n, v, hi + 1);
    assert 2 * n * (v + 1) == 2 * n * v + 2 * n;
    assert 2 * n * lo == 2 * (n * lo);
    LessByFactor(2 * n, lo, v + 1);
  }

  /** `Math.round(elapsedMs / 1000)`: the nearest whole second, halves rounded up. */
  function ElapsedSeconds(elapsedMs: int): (s: int)
    ensures 1000 * s - 500 <= elapsedMs < 1000 * s + 500
  {
    (elapsedMs + 500) / 1000
  }

  /** JavaScript's `elapsedSeconds % 60`: the remainder takes the sign of
      the dividend. */
  function JsRem60(a: int): (r: int)
    ensures a >= 0 ==> 0 <= r < 60
    ensures a < 0 ==> -60 < r <= 0
    ensures (a - r) % 60 == 0
  {
    if a >= 0 then a % 60 else -((-a) % 60)
  }

  function Min(a: int, b: int): int {
    if a <= b then a else b
  }

  /** The seconds part: a leading `0` is added below 10. */
  function SecondsText(sec: int): string {
    if sec < 10 then "0" + IntToString(sec) else IntToString(sec)
  }

  /** The `formattedTimer` text for a whole number of elapsed seconds. For a
      non-negative time it is the minutes capped at 99, a colon and the
      seconds within the minute as exactly two digits; a negative time (a
      clock that went backwards) shows a negative minute count. */
  function TimerText(elapsedSeconds: int): (t: string)
    ensures elapsedSeconds >= 0 ==>
      t == NatToString(Min(elapsedSeconds / 60, 99)) + ":" + TwoDigits(elapsedSeconds % 60)
    ensures |t| >= 4 && (elapsedSeconds < 0 <==> t[0] == '-')
  {
    SecondsTextPads(JsRem60(elapsedSeconds));
    IntToString(Min(elapsedSeconds / 60, 99)) + ":" + SecondsText(JsRem60(elapsedSeconds))
  }

  /** Two decimal digits for a number below 100, zero-padded. */
  function TwoDigits(x: nat): (s: string)
    requires x < 100
    ensures |s| == 2 && AllDigits(s)
  {
    [DigitChar(x / 10), DigitChar(x % 10)]
  }

  lemma TwoDigitsRoundTrip(x: nat)
    requires x < 100
    ensures ParseNat(TwoDigits(x)) == Some(x)
  {
    DigitRoundTrip(x / 10);
    DigitRoundTrip(x % 10);
    assert TwoDigits(x)[..1] == [DigitChar(x / 10)];
  }

  /** The seconds part of a non-negative time is its two-digit text. */
  lemma SecondsTextPads(sec: int)
    ensures 0 <= sec < 60 ==> SecondsText(sec) == TwoDigits(sec)
  {
    if sec < 0 || sec >= 60 {
    } else if sec < 10 {
      assert NatToString(sec) == [DigitChar(sec)];
      assert SecondsText(sec) == TwoDigits(sec);
    } else {
      assert NatToString(sec) == NatToString(sec / 10) + [DigitChar(sec % 10)];
      assert NatToString(sec / 10) == [DigitChar(sec / 10)];
      assert SecondsText(sec) == TwoDigits(sec);
    }
  }

  /** `updateClock`: no text while no rep time is recorded (absent or 0);
      otherwise the timer text for the time since the last rep. */
  function UpdateClock(lastRepRecordedAt: Option<int>, now: int): (t: Option<string>)
    ensures t.Some? <==> lastRepRecordedAt.Some? && lastRepRecordedAt.value != 0
    ensures t.Some? && now >= lastRepRecordedAt.value ==>
      var s := ElapsedSeconds(now - lastRepRecordedAt.value);
      s >= 0 && t.value == NatToString(Min(s / 60, 99)) + ":" + TwoDigits(s % 60)
  {
    if lastRepRecordedAt.None? || lastRepRecordedAt.value == 0 then None
    else
      var s := ElapsedSeconds(now - lastRepRecordedAt.value);
      Some(TimerText(s))
  }

  /** The minutes and seconds read back from the text are the capped whole
      minutes and the seconds within the minute. */
  lemma TimerTextReadsBack(s: nat)
    ensures var t := TimerText(s);
      exists m :: |m| >= 1 && t == m + ":" + TwoDigits(s % 60)
        && ParseNat(m) == Some(Min(s / 60, 99))
        && ParseNat(TwoDigits(s % 60)) == Some(s % 60)
  {
    ParseNatToString(Min(s / 60, 99));
    TwoDigitsRoundTrip(s % 60);
    var m := NatToString(Min(s / 60, 99));
    assert TimerText(s) == m + ":" + TwoDigits(s % 60);
  }

  /** Past 99 minutes the minutes stay at 99 while the seconds keep cycling:
      the text repeats every 60 seconds. */
  lemma TimerSaturates(s: nat)
    requires s >= 99 * 60
    ensures TimerText(s) == "99:" + TwoDigits(s % 60)
    ensures TimerText(s + 60) == TimerText(s)
  {
    assert NatToString(99) == "99";
    assert (s + 60) % 60 == s % 60;
  }
}
