/** The valid-rep filter the application shows, tabulates and alerts on. */
module Validity {
  import opened Wrappers
  import opened Types

  /** `!minRomForValidRep`: an unset or zero minimum switches the bound off. */
  predicate MinDisabled(minRom: Option<int>) {
    minRom.None? || minRom.value == 0
  }

  /** `r.rom && (!min || r.rom >= min)`: a range of motion is present and
      non-zero, and it reaches the minimum when one is set. */
  predicate IsValid(r: Rep, minRom: Option<int>) {
    r.rom.Some? && r.rom.value != 0 && (MinDisabled(minRom) || r.rom.value >= minRom.value)
  }

  /** `a` is `b` with some elements dropped and the rest in their order. */
  predicate IsSubsequence<T(==)>(a: seq<T>, b: seq<T>)
    decreases |b|
  {
    if |a| == 0 then true
    else if |b| == 0 then false
    else (a[0] == b[0] && IsSubsequence(a[1..], b[1..])) || IsSubsequence(a, b[1..])
  }

  /** Keeping a common head keeps a subsequence. */
  lemma SubsequenceKeepHead<T>(x: T, a: seq<T>, b: seq<T>)
    requires IsSubsequence(a, b)
    ensures IsSubsequence([x] + a, [x] + b)
  {
  }

  /** Skipping an element of the longer sequence keeps a subsequence. */
  lemma SubsequenceSkipHead<T>(x: T, a: seq<T>, b: seq<T>)
    requires IsSubsequence(a, b)
    ensures IsSubsequence(a, [x] + b)
  {
  }

  /** The `validReps` memo: the reps passing `IsValid`, newest first as in `reps`. */
  function ValidReps(reps: seq<Rep>, minRom: Option<int>): (v: seq<Rep>)
    ensures IsSubsequence(v, reps)
    ensures forall i :: 0 <= i < |v| ==> IsValid(v[i], minRom)
    ensures forall r :: r in v <==> r in reps && IsValid(r, minRom)
    decreases |reps|
  {
    if |reps| == 0 then []
    else if IsValid(reps[0], minRom) then [reps[0]] + ValidReps(reps[1..], minRom)
    else ValidReps(reps[1..], minRom)
  }

  /** The minimum in effect: 0 when the bound is switched off. Every kept rep
      has a range of motion of at least 1, so a bound of 0 keeps them all. */
  function EffectiveMin(minRom: Option<int>): int {
    if MinDisabled(minRom) then 0 else minRom.value
  }

  /** A rep is valid exactly when its range of motion is non-zero and reaches
      the effective minimum. */
  lemma IsValidByEffectiveMin(r: Rep, minRom: Option<int>)
    ensures IsValid(r, minRom) <==> r.rom.Some? && r.rom.value != 0 && r.rom.value >= EffectiveMin(minRom)
  {
  }

  /** The filter distributes over concatenation: it judges each rep on its own. */
  lemma {:induction false} ValidRepsAppend(a: seq<Rep>, b: seq<Rep>, minRom: Option<int>)
    ensures ValidReps(a + b, minRom) == ValidReps(a, minRom) + ValidReps(b, minRom)
    decreases |a|
  {
    if |a| > 0 {
      assert (a + b)[1..] == a[1..] + b;
      ValidRepsAppend(a[1..], b, minRom);
    } else {
      assert a + b == b;
    }
  }

  /** Filtering under a lower effective minimum first and then under a higher
      one is the same as filtering under the higher one alone. */
  lemma {:induction false} ValidRepsCompose(reps: seq<Rep>, lower: Option<int>, higher: Option<int>)
    requires EffectiveMin(lower) <= EffectiveMin(higher)
    ensures ValidReps(ValidReps(reps, lower), higher) == ValidReps(reps, higher)
    decreases |reps|
  {
    if |reps| > 0 {
      IsValidByEffectiveMin(reps[0], lower);
      IsValidByEffectiveMin(reps[0], higher);
      ValidRepsCompose(reps[1..], lower, higher);
    }
  }

  /** Filtering the valid reps again changes nothing. */
  lemma ValidRepsIdempotent(reps: seq<Rep>, minRom: Option<int>)
    ensures ValidReps(ValidReps(reps, minRom), minRom) == ValidReps(reps, minRom)
  {
    ValidRepsCompose(reps, minRom, minRom);
  }

  /** Raising the minimum never adds a rep: the reps valid under the higher
      minimum are a subsequence of those valid under the lower one. */
  lemma RaisingMinNeverAdds(reps: seq<Rep>, lower: Option<int>, higher: Option<int>)
    requires EffectiveMin(lower) <= EffectiveMin(higher)
    ensures IsSubsequence(ValidReps(reps, higher), ValidReps(reps, lower))
  {
    ValidRepsCompose(reps, lower, higher);
  }

  /** With no minimum, the valid reps are exactly those with a non-zero range
      of motion; a range of motion of 0 is dropped under every minimum. */
  lemma {:induction false} UnsetMinKeepsNonZeroRom(reps: seq<Rep>, minRom: Option<int>)
    ensures ValidReps(reps, None) == ValidReps(reps, Some(0))
    ensures forall r :: r in ValidReps(reps, None) <==> r in reps && r.rom.Some? && r.rom.value != 0
    ensures forall r :: r in reps && r.rom == Some(0) ==> r !in ValidReps(reps, minRom)
    decreases |reps|
  {
    if |reps| > 0 {
      UnsetMinKeepsNonZeroRom(reps[1..], minRom);
    }
  }
}
