/** How the application wires the pieces together: the session's rep list
    feeds the valid-rep filter, which feeds the alert, the last-rep panel and
    the set table. */
module App {
  import opened Wrappers
  import opened Types
  import opened Validity
  import NegativeBeep
  import LastRep
  import RepOne
  import DeviceSession

  /** A notification that decodes to a rep puts that rep at the head of the
      valid reps when it is valid and leaves the valid reps as they were
      otherwise. */
  lemma NotificationFeedsValidReps(s: DeviceSession.Session, bytes: seq<byte>, now: int, minRom: Option<int>)
    requires s.subscription.Some? && |bytes| % 2 == 0
    ensures var r := DeviceSession.OnNotification(s, DeviceSession.Characteristic(RepOne.Value(bytes)), now);
      var rep := r.reps[0];
      && (IsValid(rep, minRom) ==> ValidReps(r.reps, minRom) == [rep] + ValidReps(s.reps, minRom))
      && (!IsValid(rep, minRom) ==> ValidReps(r.reps, minRom) == ValidReps(s.reps, minRom))
  {
    var r := DeviceSession.OnNotification(s, DeviceSession.Characteristic(RepOne.Value(bytes)), now);
    assert r.reps == [r.reps[0]] + s.reps;
    ValidRepsAppend([r.reps[0]], s.reps, minRom);
  }

  /** The newest valid rep is the one the last-rep panel shows and the only
      one the alert examines: a valid new rep that is slow, below a set
      threshold and not yet alerted for, beeps. */
  lemma NewValidRepDrivesPanelAndAlert(s: DeviceSession.Session, bytes: seq<byte>, now: int,
                                       minRom: Option<int>, threshold: Option<int>, marker: Option<u16>)
    requires s.subscription.Some? && |bytes| % 2 == 0
    requires var rep := DeviceSession.OnNotification(s, DeviceSession.Characteristic(RepOne.Value(bytes)), now).reps[0];
      IsValid(rep, minRom)
    ensures var r := DeviceSession.OnNotification(s, DeviceSession.Characteristic(RepOne.Value(bytes)), now);
      var rep := r.reps[0];
      && LastRep.LastRep(ValidReps(r.reps, minRom)) == Some(rep)
      && (NegativeBeep.Evaluate(ValidReps(r.reps, minRom), threshold, marker).play <==>
            NegativeBeep.ThresholdSet(threshold) && NegativeBeep.IsSlow(rep, threshold.value) && marker != rep.deviceRepId)
  {
    NotificationFeedsValidReps(s, bytes, now, minRom);
  }

  /** In any valid session the set average over the valid reps is never
      `NaN`: a rep with a range of motion always carries a velocity. */
  lemma {:induction false} SetAverageIsNumber(s: DeviceSession.Session, minRom: Option<int>)
    requires DeviceSession.Valid(s)
    ensures !LastRep.AvgSetVelocity(ValidReps(s.reps, minRom)).NotANumber?
  {
    var v := ValidReps(s.reps, minRom);
    if |v| > 0 {
      assert IsValid(v[0], minRom);
      assert v[0] in s.reps;
      var i :| 0 <= i < |s.reps| && s.reps[i] == v[0];
      DeviceSession.RomImpliesVelocity(s, i);
      PresentCountPositive(v);
    }
  }

  lemma PresentCountPositive(reps: seq<Rep>)
    requires |reps| > 0 && reps[0].averageVelocity.Some?
    ensures LastRep.PresentCount(reps) > 0
  {
  }

  /** Starting a new set empties the valid reps under every minimum, so the
      panel shows no last rep and the alert stays silent. */
  lemma NewSetClearsEverything(s: DeviceSession.Session, minRom: Option<int>, threshold: Option<int>, marker: Option<u16>)
    ensures ValidReps(DeviceSession.NewSet(s).reps, minRom) == []
    ensures LastRep.LastRep(ValidReps(DeviceSession.NewSet(s).reps, minRom)).None?
    ensures !NegativeBeep.Evaluate(ValidReps(DeviceSession.NewSet(s).reps, minRom), threshold, marker).play
    ensures NegativeBeep.Evaluate(ValidReps(DeviceSession.NewSet(s).reps, minRom), threshold, marker).marker == marker
  {
  }
}
