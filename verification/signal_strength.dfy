/** The RSSI-to-percent table and the signal label shown while a sensor is
    connected. */
module SignalStrength {
  import opened Wrappers
  import opened Text

  /** Percent listed in the table for an RSSI key from -100 to -1. */
  function TablePercent(rssi: int): (p: nat)
    requires -100 <= rssi <= -1
    ensures p <= 100
  {
    match rssi
    case -100 => 0
    case -99 => 0
    case -98 => 0
    case -97 => 0
    case -96 => 0
    case -95 => 0
    case -94 => 4
    case -93 => 6
    case -92 => 8
    case -91 => 11
    case -90 => 13
    case -89 => 15
    case -88 => 17
    case -87 => 19
    case -86 => 21
    case -85 => 23
    case -84 => 26
    case -83 => 28
    case -82 => 30
    case -81 => 32
    case -80 => 34
    case -79 => 35
    case -78 => 37
    case -77 => 39
    case -76 => 41
    case -75 => 43
    case -74 => 45
    case -73 => 46
    case -72 => 48
    case -71 => 50
    case -70 => 52
    case -69 => 53
    case -68 => 55
    case -67 => 56
    case -66 => 58
    case -65 => 59
    case -64 => 61
    case -63 => 62
    case -62 => 64
    case -61 => 65
    case -60 => 67
    case -59 => 68
    case -58 => 69
    case -57 => 71
    case -56 => 72
    case -55 => 73
    case -54 => 75
    case -53 => 76
    case -52 => 77
    case -51 => 78
    case -50 => 79
    case -49 => 80
    case -48 => 81
    case -47 => 82
    case -46 => 83
    case -45 => 84
    case -44 => 85
    case -43 => 86
    case -42 => 87
    case -41 => 88
    case -40 => 89
    case -39 => 90
    case -38 => 90
    case -37 => 91
    case -36 => 92
    case -35 => 93
    case -34 => 93
    case -33 => 94
    case -32 => 95
    case -31 => 95
    case -30 => 96
    case -29 => 96
    case -28 => 97
    case -27 => 97
    case -26 => 98
    case -25 => 98
    case -24 => 99
    case -23 => 99
    case -22 => 99
    case -21 => 100
    case -20 => 100
    case -19 => 100
    case -18 => 100
    case -17 => 100
    case -16 => 100
    case -15 => 100
    case -14 => 100
    case -13 => 100
    case -12 => 100
    case -11 => 100
    case -10 => 100
    case -9 => 100
    case -8 => 100
    case -7 => 100
    case -6 => 100
    case -5 => 100
    case -4 => 100
    case -3 => 100
    case -2 => 100
    case -1 => 100
    case _ => 0
  }

  /** The text of the table key for an RSSI from -100 to -1. The keys for -9
      to -1 are written with a trailing space. */
  function KeyText(rssi: int): string
    requires -100 <= rssi <= -1
  {
    IntToString(rssi) + (if rssi >= -9 then " " else "")
  }

  /** A key ends in a space exactly when it is one of -9 to -1. */
  lemma KeyTextLastChar(rssi: int)
    requires -100 <= rssi <= -1
    ensures KeyText(rssi)[|KeyText(rssi)| - 1] == ' ' <==> rssi >= -9
  {
  }

  /** No two table entries share a key. */
  lemma KeyTextInjective()
    ensures forall a, b :: -100 <= a <= -1 && -100 <= b <= -1 && KeyText(a) == KeyText(b) ==> a == b
  {
    forall a, b | -100 <= a <= -1 && -100 <= b <= -1 && KeyText(a) == KeyText(b)
      ensures a == b
    {
      var sa, sb := IntToString(a), IntToString(b);
      KeyTextLastChar(a);
      KeyTextLastChar(b);
      if a >= -9 {
        assert sa == KeyText(a)[..|KeyText(a)| - 1];
        assert sb == KeyText(b)[..|KeyText(b)| - 1];
      } else {
        assert KeyText(a) == sa && KeyText(b) == sb;
      }
      IntToStringInjective(a, b);
    }
  }

  /** `signalStrengthMap`: key text to percent text, one entry per RSSI from
      -100 to -1. */
  function SignalStrengthMap(): (m: map<string, string>)
    ensures forall rssi :: -100 <= rssi <= -1 ==> KeyText(rssi) in m && m[KeyText(rssi)] == NatToString(TablePercent(rssi))
    ensures forall key :: key in m ==> exists rssi :: -100 <= rssi <= -1 && KeyText(rssi) == key
  {
    KeyTextInjective();
    map rssi | -100 <= rssi <= -1 :: KeyText(rssi) := NatToString(TablePercent(rssi))
  }

  /** `signalStrengthMap[rssi]`: the number is looked up by its decimal
      text. It finds an entry exactly for -100 to -10, because the keys for
      -9 to -1 carry a trailing space, and a hit is the percent's text. */
  function Lookup(rssi: int): (hit: Option<string>)
    ensures hit.Some? <==> -100 <= rssi <= -10
    ensures hit.Some? ==> hit.value == NatToString(DisplayPercent(rssi))
  {
    var m := SignalStrengthMap();
    var key := IntToString(rssi);
    KeyFoundExactly(rssi);
    if key in m then Some(m[key]) else None
  }

  /** The percent a reading is meant to show: the table value for -100 to -10,
      and 0 for every other reading. */
  function DisplayPercent(rssi: int): (p: nat)
    ensures p <= 100
  {
    if -100 <= rssi <= -10 then TablePercent(rssi) else 0
  }

  /** The decimal text of a reading is a key of the table exactly when the
      reading is between -100 and -10, and then it is that reading's key. */
  lemma KeyFoundExactly(rssi: int)
    ensures IntToString(rssi) in SignalStrengthMap() <==> -100 <= rssi <= -10
    ensures -100 <= rssi <= -10 ==> IntToString(rssi) == KeyText(rssi)
  {
    var m := SignalStrengthMap();
    var key := IntToString(rssi);
    if -100 <= rssi <= -10 {
      assert KeyText(rssi) == key;
    } else if key in m {
      var r :| -100 <= r <= -1 && KeyText(r) == key;
      if r < -9 {
        assert KeyText(r) == IntToString(r);
        IntToStringInjective(r, rssi);
      }
    }
  }

  /** Every value of the table reads back as a whole number from 0 to 100. */
  lemma TableValuesArePercents(key: string)
    requires key in SignalStrengthMap()
    ensures ParseNat(SignalStrengthMap()[key]).Some?
    ensures ParseNat(SignalStrengthMap()[key]).value <= 100
  {
    var r :| -100 <= r <= -1 && KeyText(r) == key;
    ParseNatToString(TablePercent(r));
  }

  /** Adjacent keys never decrease. */
  lemma TablePercentStepUp(rssi: int)
    requires -100 <= rssi < -1
    ensures TablePercent(rssi) <= TablePercent(rssi + 1)
  {
  }

  /** Over -100..-10 the shown percent never decreases as the signal gets stronger. */
  lemma {:induction false} DisplayPercentMonotone(a: int, b: int)
    requires -100 <= a <= b <= -10
    ensures DisplayPercent(a) <= DisplayPercent(b)
    decreases b - a
  {
    if a < b {
      DisplayPercentMonotone(a, b - 1);
      TablePercentStepUp(b - 1);
    }
  }

  /** The weakest readings show 0 percent and the strongest listed ones 100. */
  lemma DisplayPercentEnds(rssi: int)
    ensures -100 <= rssi <= -95 ==> DisplayPercent(rssi) == 0
    ensures -21 <= rssi <= -10 ==> DisplayPercent(rssi) == 100
  {
  }

  /** The `sensorStrength` label: empty without a sensor; otherwise the
      percent followed by the raw reading in parentheses, with an absent or
      zero reading shown as 0. */
  function SensorStrength(hasSensor: bool, rssi: Option<int>): (shownText: string)
    ensures !hasSensor ==> shownText == ""
    ensures hasSensor && (rssi.None? || rssi.value == 0) ==> shownText == "0% ( 0 )"
    ensures hasSensor && rssi.Some? && rssi.value != 0 ==>
      shownText == NatToString(DisplayPercent(rssi.value)) + "% ( " + IntToString(rssi.value) + " )"
  {
    if !hasSensor then ""
    else
      var percent :=
        if rssi.Some? && rssi.value != 0 then Lookup(rssi.value).GetOr("0") else "0";
      var shown := if rssi.Some? then IntToString(rssi.value) else "0";
      percent + "% ( " + shown + " )"
  }
}
