/** The count-down to midnight shown on the end-of-round screen, as arithmetic on
    the seconds since midnight. */
module Clock {

  import opened Wrappers
  import opened Numerals

  const SecondsPerDay: nat := 86400

  /** `two_digits` on a whole number: a leading zero below ten. */
  function TwoDigits(x: nat): (r: string)
    ensures AllDigits(r)
    ensures Value(r) == x
    ensures x < 100 ==> |r| == 2
    ensures x >= 10 ==> Canonical(r)
  {
    ValueOfDecimal(x);
    if x < 10 then
      assert Value("0" + Decimal(x)) == Value(Decimal(x)) by {
        LeadingZero(Decimal(x));
      }
      "0" + Decimal(x)
    else Decimal(x)
  }

  /** A leading zero before a single digit adds nothing. */
  lemma LeadingZero(d: string)
    requires |d| == 1 && AllDigits(d)
    ensures AllDigits("0" + d)
    ensures Value("0" + d) == Value(d)
  {
    var s := "0" + d;
    assert s[..1] == "0";
    assert "0"[..0] == [];
    assert d[..0] == [];
  }

  /** The text of the count-down, given the date now, the date the round was loaded
      on and the seconds since midnight now: `0:00:00` once the day has changed,
      otherwise hours, minutes and seconds left until midnight. */
  function Countdown(now: string, today: string, sinceMidnight: nat): (r: string)
    requires sinceMidnight < SecondsPerDay
    ensures 7 <= |r| <= 8
    ensures r[|r| - 3] == ':' && r[|r| - 6] == ':'
    ensures forall i :: 0 <= i < |r| && i != |r| - 3 && i != |r| - 6 ==> IsDigit(r[i])
  {
    if now != today then "0:00:00"
    else
      var toMidnight := SecondsPerDay - sinceMidnight;
      var hours := Decimal(toMidnight / 3600);
      assert |hours| <= 2 by {
        CountdownHours(sinceMidnight);
      }
      hours + ":" + TwoDigits((toMidnight % 3600) / 60) + ":" + TwoDigits(toMidnight % 60)
  }

  /** The count-down shows hours, then minutes and seconds below 60 in two digits
      each, totalling the seconds left until midnight, or zero once the date has
      moved on. Together with `ValueOfDecimal` and the contract of `TwoDigits`,
      every field reads back as the number it stands for. */
  lemma CountdownFields(now: string, today: string, sinceMidnight: nat)
    requires sinceMidnight < SecondsPerDay
    ensures exists h: nat, m: nat, s: nat ::
      && m < 60 && s < 60
      && 3600 * h + 60 * m + s == (if now == today then SecondsPerDay - sinceMidnight else 0)
      && Countdown(now, today, sinceMidnight) == Decimal(h) + ":" + TwoDigits(m) + ":" + TwoDigits(s)
  {
    if now != today {
      assert Countdown(now, today, sinceMidnight) == Decimal(0) + ":" + TwoDigits(0) + ":" + TwoDigits(0);
    } else {
      var t := SecondsPerDay - sinceMidnight;
      SplitSeconds(t);
      var h, m, s := t / 3600, (t % 3600) / 60, t % 60;
      assert Countdown(now, today, sinceMidnight) == Decimal(h) + ":" + TwoDigits(m) + ":" + TwoDigits(s);
    }
  }

  lemma SplitSeconds(t: nat)
    ensures 3600 * (t / 3600) + 60 * ((t % 3600) / 60) + t % 60 == t
    ensures (t % 3600) / 60 < 60 && t % 60 < 60
  {
  }

  /** The hours field is at most 24, and 24 exactly at midnight (`24:00:00`). */
  lemma CountdownHours(sinceMidnight: nat)
    requires sinceMidnight < SecondsPerDay
    ensures (SecondsPerDay - sinceMidnight) / 3600 <= 24
    ensures (SecondsPerDay - sinceMidnight) / 3600 == 24 <==> sinceMidnight == 0
  {
  }
}
