// Declination arithmetic used when a catalog body entry is selected: the
// entry's signed degrees and unsigned minutes/seconds become one signed
// count of arc-seconds, with the sign taken from the degrees alone.

module Declination {
  import opened PoiCatalog

  function Abs(x: int): nat
  {
    if x < 0 then -x else x
  }

  /** Signed total arc-seconds of a declination written as (degrees,
      minutes, seconds). The magnitude is computed first and then multiplied
      by -1 when the degrees are negative, so a declination between 0 and -1
      degree (degrees == 0 with nonzero minutes or seconds) always comes out
      non-negative. */
  function TargetSeconds(degree: int, minute: Byte, second: Byte): (r: int)
    ensures r < 0 <==> degree < 0
    ensures Abs(r) >= 3600 * Abs(degree)
    ensures minute < 60 && second < 60 ==> Abs(r) < 3600 * (Abs(degree) + 1)
  {
    var targetSeconds := (60 * Abs(degree) + minute) * 60 + second;
    targetSeconds * (if degree < 0 then -1 else 1)
  }

  /** A declination split into degrees, minutes and seconds. */
  datatype Dms = Dms(degree: int, minute: Byte, second: Byte)

  /** Reference decoding of a signed arc-second count into sexagesimal
      parts: the magnitude's whole degrees, carrying the count's sign, then
      its minutes and seconds. */
  function Sexagesimal(totalSeconds: int): (d: Dms)
    ensures d.minute < 60 && d.second < 60
  {
    var a := Abs(totalSeconds);
    Dms(if totalSeconds < 0 then -(a / 3600) else a / 3600, (a / 60) % 60, a % 60)
  }

  lemma DivModOfParts(a: int, q: int, m: int, s: int)
    requires 0 <= m < 60 && 0 <= s < 60 && q >= 0
    requires a == 3600 * q + 60 * m + s
    ensures a / 3600 == q && (a / 60) % 60 == m && a % 60 == s
  {
    assert a / 60 == 60 * q + m;
    assert (60 * q + m) % 60 == m;
  }

  /** With minutes and seconds in 0..59, the arc-second count decodes back
      to the same degrees, minutes and seconds: its magnitude divided by 3600
      is the absolute degrees, by 60 modulo 60 the minutes, and modulo 60 the
      seconds. */
  lemma {:induction false} SexagesimalOfTargetSeconds(degree: int, minute: Byte, second: Byte)
    requires minute < 60 && second < 60
    ensures var a := Abs(TargetSeconds(degree, minute, second));
      a / 3600 == Abs(degree) && (a / 60) % 60 == minute && a % 60 == second
    ensures Sexagesimal(TargetSeconds(degree, minute, second)) == Dms(degree, minute, second)
  {
    var r := TargetSeconds(degree, minute, second);
    assert Abs(r) == 3600 * Abs(degree) + 60 * minute + second;
    DivModOfParts(Abs(r), Abs(degree), minute, second);
  }

  /** An arc-second count is produced by some entry exactly when it is not
      strictly between -3600 and 0: the counts of the declinations between 0
      and -1 degree cannot be expressed. When it can, the sexagesimal
      decoding is such an entry. */
  lemma {:induction false} TargetSecondsOfSexagesimal(totalSeconds: int)
    ensures var d := Sexagesimal(totalSeconds);
      TargetSeconds(d.degree, d.minute, d.second) == totalSeconds
      <==> totalSeconds >= 0 || totalSeconds <= -3600
  {
    var a := Abs(totalSeconds);
    var d := Sexagesimal(totalSeconds);
    assert a == 3600 * (a / 3600) + 60 * ((a / 60) % 60) + a % 60 by {
      assert a == 60 * (a / 60) + a % 60;
      assert a / 60 == 60 * ((a / 60) / 60) + (a / 60) % 60;
      assert (a / 60) / 60 == a / 3600;
    }
    assert Abs(d.degree) == a / 3600;
    if -3600 < totalSeconds < 0 {
      assert d.degree == 0;
    }
  }

  /** The representational gap itself: no (degrees, minutes, seconds) at all
      yields a count strictly between -3600 and 0, and with zero degrees the
      count is never negative. */
  lemma SubDegreeSouthIsUnreachable(degree: int, minute: Byte, second: Byte)
    ensures var r := TargetSeconds(degree, minute, second); !(-3600 < r < 0)
    ensures degree == 0 ==> TargetSeconds(degree, minute, second) >= 0
  {
  }

  /** Every entry of the shipped catalog has minutes and seconds in 0..59 and
      degrees in -90..90, none lies in the gap, its declination survives
      encoding, and its arc-second count fits in a 32-bit `long`. */
  lemma {:induction false} ShippedCatalogDeclinations(polarisHour: Byte, polarisMinute: Byte, polarisSecond: Byte, i: int)
    requires 0 <= i < 19
    ensures var e := PointsOfInterest(polarisHour, polarisMinute, polarisSecond)[i];
      && e.minDEC < 60 && e.secDEC < 60 && -90 <= e.degreeDEC <= 90
      && Sexagesimal(TargetSeconds(e.degreeDEC, e.minDEC, e.secDEC)) == Dms(e.degreeDEC, e.minDEC, e.secDEC)
      && Abs(TargetSeconds(e.degreeDEC, e.minDEC, e.secDEC)) <= 324000 < 0x8000_0000
  {
    var e := PointsOfInterest(polarisHour, polarisMinute, polarisSecond)[i];
    SexagesimalOfTargetSeconds(e.degreeDEC, e.minDEC, e.secDEC);
  }

  /** The two worked values: Eagle Nebula (-13 47' 52") and Polaris
      (89 21' 6"). */
  lemma WorkedDeclinations()
    ensures TargetSeconds(-13, 47, 52) == -49672
    ensures TargetSeconds(89, 21, 6) == 321666
  {
  }
}
