/** The set table: a header and one text row per valid rep, newest first. */
module SetTable {
  import opened Wrappers
  import opened Text
  import opened Types

  /** The header row. */
  const Header: seq<string> := ["Rep", "Velocity (mm/s)", "ROM (mm)", "Duration (ms)"]

  /** JavaScript `String(x)` of a measurement: its decimal text, or
      `"undefined"` when it is absent. */
  function Show(x: Option<u16>): (s: string)
    ensures x.Some? ==> ParseNat(s) == Some(x.value)
    ensures x.None? ==> s == "undefined" && ParseNat(s).None?
  {
    match x
    case None => "undefined"
    case Some(v) =>
      ParseNatToString(v);
      NatToString(v)
  }

  /** One data row: the rep's number in the set, then its velocity, range of
      motion and duration. */
  function Row(rep: Rep, number: int): (row: seq<string>)
    ensures |row| == 4
    ensures ParseInt(row[0]) == Some(number)
    ensures row[1..] == [Show(rep.averageVelocity), Show(rep.rom), Show(rep.duration)]
  {
    ParseIntToString(number);
    [IntToString(number), Show(rep.averageVelocity), Show(rep.rom), Show(rep.duration)]
  }

  /** The data rows: `reps.map((rep, index) => ...)`, the row at `index`
      numbered `reps.length - index`. */
  function Rows(reps: seq<Rep>): (rows: seq<seq<string>>)
    ensures |rows| == |reps|
    ensures forall i :: 0 <= i < |rows| ==> rows[i] == Row(reps[i], |reps| - i)
  {
    seq(|reps|, index requires 0 <= index < |reps| => Row(reps[index], |reps| - index))
  }

  /** Every data row lines up with the header: one cell per column, the
      number under "Rep" and the three measurements under their titles. */
  lemma RowsMatchHeader(reps: seq<Rep>)
    ensures forall i :: 0 <= i < |reps| ==>
      |Rows(reps)[i]| == |Header|
      && Rows(reps)[i][1] == Show(reps[i].averageVelocity)
      && Rows(reps)[i][2] == Show(reps[i].rom)
      && Rows(reps)[i][3] == Show(reps[i].duration)
  {
    forall i | 0 <= i < |reps|
      ensures |Rows(reps)[i]| == |Header|
    {
      assert Rows(reps)[i] == Row(reps[i], |reps| - i);
    }
  }

  /** The rows are numbered from `n` for the newest rep down to 1 for the
      oldest, each number once. */
  lemma RowNumbersCountDown(reps: seq<Rep>)
    ensures forall i :: 0 <= i < |reps| ==> ParseInt(Rows(reps)[i][0]) == Some(|reps| - i)
    ensures |reps| > 0 ==> ParseInt(Rows(reps)[0][0]) == Some(|reps|)
    ensures |reps| > 0 ==> ParseInt(Rows(reps)[|reps| - 1][0]) == Some(1)
    ensures forall i, j :: 0 <= i < j < |reps| ==> Rows(reps)[i][0] != Rows(reps)[j][0]
  {
    forall i, j | 0 <= i < j < |reps|
      ensures Rows(reps)[i][0] != Rows(reps)[j][0]
    {
      IntToStringInjective(|reps| - i, |reps| - j);
    }
  }

  /** A new rep at the head of the list adds a row numbered one above the
      previous count and leaves every existing row as it was. */
  lemma PrependAddsTopRow(rep: Rep, reps: seq<Rep>)
    ensures Rows([rep] + reps) == [Row(rep, |reps| + 1)] + Rows(reps)
  {
    var a, b := Rows([rep] + reps), [Row(rep, |reps| + 1)] + Rows(reps);
    assert |a| == |b|;
    forall i | 0 <= i < |a|
      ensures a[i] == b[i]
    {
      if i > 0 {
        assert ([rep] + reps)[i] == reps[i - 1];
      }
    }
  }
}
