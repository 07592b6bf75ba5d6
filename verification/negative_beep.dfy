/** The low-velocity alert: whether the newest valid rep triggers a beep,
    with a one-slot marker so that one physical rep beeps at most once. */
module NegativeBeep {
  import opened Wrappers
  import opened Types

  /** `alertVelocityThreshold` is truthy: set and non-zero. */
  predicate ThresholdSet(threshold: Option<int>) {
    threshold.Some? && threshold.value != 0
  }

  /** The result of one run of the alert effect: whether `playBeep` is called,
      and the marker (`beepPlayForRepId`) afterwards. */
  datatype Beep = Beep(play: bool, marker: Option<u16>)

  /** The newest valid rep is slow: its average velocity is present, non-zero
      and below the threshold. */
  predicate IsSlow(r: Rep, threshold: int) {
    r.averageVelocity.Some? && r.averageVelocity.value != 0 && r.averageVelocity.value < threshold
  }

  /** The effect body of `useNegativeBeep`, run on `validReps` (newest first)
      with the marker left by the previous run. */
  function Evaluate(validReps: seq<Rep>, threshold: Option<int>, marker: Option<u16>): (b: Beep)
    ensures b.play <==>
      && |validReps| > 0
      && ThresholdSet(threshold)
      && IsSlow(validReps[0], threshold.value)
      && marker != validReps[0].deviceRepId
    ensures b.play ==> b.marker == validReps[0].deviceRepId
    ensures !b.play ==> b.marker == marker
  {
    if |validReps| > 0 && ThresholdSet(threshold) then
      var lastRep := validReps[0];
      if IsSlow(lastRep, threshold.value) && marker != lastRep.deviceRepId then
        Beep(true, lastRep.deviceRepId)
      else
        Beep(false, marker)
    else
      Beep(false, marker)
  }

  /** Number of beeps over successive runs of the effect on the same valid
      reps, one run per threshold value in `thresholds`, threading the marker. */
  function BeepCount(validReps: seq<Rep>, thresholds: seq<Option<int>>, marker: Option<u16>): nat
    decreases |thresholds|
  {
    if |thresholds| == 0 then 0
    else
      var b := Evaluate(validReps, thresholds[0], marker);
      (if b.play then 1 else 0) + BeepCount(validReps, thresholds[1..], b.marker)
  }

  /** Once the marker holds the newest rep's id, re-running never beeps. */
  lemma {:induction false} NoBeepOnceMarked(validReps: seq<Rep>, thresholds: seq<Option<int>>)
    requires |validReps| > 0
    ensures BeepCount(validReps, thresholds, validReps[0].deviceRepId) == 0
    decreases |thresholds|
  {
    if |thresholds| > 0 {
      NoBeepOnceMarked(validReps, thresholds[1..]);
    }
  }

  /** However often the effect re-runs with the same newest valid rep, and
      whatever the thresholds, it beeps at most once. */
  lemma {:induction false} AtMostOneBeep(validReps: seq<Rep>, thresholds: seq<Option<int>>, marker: Option<u16>)
    ensures BeepCount(validReps, thresholds, marker) <= 1
    decreases |thresholds|
  {
    if |thresholds| > 0 {
      var b := Evaluate(validReps, thresholds[0], marker);
      if b.play {
        NoBeepOnceMarked(validReps, thresholds[1..]);
      } else {
        AtMostOneBeep(validReps, thresholds[1..], marker);
      }
    }
  }

  /** Only the newest valid rep is looked at: two lists with the same head
      give the same decision. */
  lemma OnlyNewestExamined(a: seq<Rep>, b: seq<Rep>, threshold: Option<int>, marker: Option<u16>)
    requires |a| > 0 && |b| > 0 && a[0] == b[0]
    ensures Evaluate(a, threshold, marker) == Evaluate(b, threshold, marker)
  {
  }

  /** A zero or absent average velocity never beeps, however far below the
      threshold; nor does anything with no valid reps or no threshold. */
  lemma SilentCases(validReps: seq<Rep>, threshold: Option<int>, marker: Option<u16>)
    ensures |validReps| == 0 ==> !Evaluate(validReps, threshold, marker).play
    ensures !ThresholdSet(threshold) ==> !Evaluate(validReps, threshold, marker).play
    ensures |validReps| > 0 && validReps[0].averageVelocity in {None, Some(0)} ==>
      !Evaluate(validReps, threshold, marker).play
  {
  }

  /** A threshold of 500 and a newest rep with velocity 480 and id 7: the
      first run beeps and marks 7, the second stays silent. */
  lemma SlowRepBeepsOnce(r: Rep, rest: seq<Rep>, marker: Option<u16>)
    requires r.averageVelocity == Some(480) && r.deviceRepId == Some(7)
    requires marker != Some(7)
    ensures Evaluate([r] + rest, Some(500), marker) == Beep(true, Some(7))
    ensures !Evaluate([r] + rest, Some(500), Some(7)).play
    ensures BeepCount([r] + rest, [Some(500), Some(500), Some(500)], marker) == 1
  {
  }
}
