/**
 * format_time: a whole number of seconds rendered as a SubRip timestamp
 * "HH:MM:SS,mmm". The cue builder only ever passes non-negative integers, so
 * the fraction the source computes for milliseconds is always zero.
 */
module Timestamp {
  import opened Common
  import opened Decimal

  /** The four fields of a timestamp. */
  datatype Clock = Clock(hours: nat, minutes: nat, seconds: nat, millis: nat)

  /** The number of whole seconds a clock reading stands for. */
  function Seconds(c: Clock): nat
  {
    3600 * c.hours + 60 * c.minutes + c.seconds
  }

  /** divmod(x, 60) on a natural number, as repeated subtraction of 60. */
  function DivMod60(x: nat): (r: (nat, nat))
    decreases x
  {
    if x < 60 then (0, x)
    else
      var (q, m) := DivMod60(x - 60);
      (q + 1, m)
  }

  /**
   * DivMod60 is divmod by 60: x is 60 times the quotient plus a remainder
   * below 60, and the pair is (x // 60, x % 60).
   */
  lemma {:induction false} DivMod60IsDivMod(x: nat)
    ensures DivMod60(x).1 < 60 && 60 * DivMod60(x).0 + DivMod60(x).1 == x
    ensures DivMod60(x) == (x / 60, x % 60)
    decreases x
  {
    if x >= 60 {
      DivMod60IsDivMod(x - 60);
    }
    DivBySixty(x, DivMod60(x).0, DivMod60(x).1);
  }

  /** divmod by 60 is determined by quotient and remainder. */
  lemma DivBySixty(x: nat, q: nat, r: nat)
    requires r < 60 && x == 60 * q + r
    ensures x / 60 == q && x % 60 == r
  {
  }

  /**
   * The two divmod steps of format_time: minutes and seconds from divmod by
   * 60, then hours and minutes from divmod of the minutes by 60.
   */
  function Decompose(total: nat): (c: Clock)
  {
    var (minutes, seconds) := DivMod60(total);
    var (hours, minutes') := DivMod60(minutes);
    // seconds - int(seconds) is zero for an integer, so no milliseconds
    Clock(hours, minutes', seconds, 0)
  }

  /**
   * The decomposition is a clock reading of `total`: minutes and seconds
   * below 60, no milliseconds, and 3600 h + 60 m + s equal to `total`.
   */
  lemma DecomposeSound(total: nat)
    ensures Decompose(total).minutes < 60 && Decompose(total).seconds < 60
    ensures Decompose(total).millis == 0
    ensures Seconds(Decompose(total)) == total
  {
    DivMod60IsDivMod(total);
    DivMod60IsDivMod(DivMod60(total).0);
  }

  /** Any clock reading with minutes and seconds below 60 is the decomposition of its seconds. */
  lemma DecomposeUnique(c: Clock)
    requires c.minutes < 60 && c.seconds < 60 && c.millis == 0
    ensures Decompose(Seconds(c)) == c
  {
    var allMinutes := 60 * c.hours + c.minutes;
    assert Seconds(c) == 60 * allMinutes + c.seconds;
    DivMod60IsDivMod(Seconds(c));
    DivBySixty(Seconds(c), allMinutes, c.seconds);
    DivMod60IsDivMod(allMinutes);
    DivBySixty(allMinutes, c.hours, c.minutes);
  }

  /** f"{h:02}:{m:02}:{s:02},{ms:03}" of the decomposed seconds. */
  function FormatTime(total: nat): (r: string)
  {
    var c := Decompose(total);
    PadInt(c.hours, 2) + ":" + PadInt(c.minutes, 2) + ":" + PadInt(c.seconds, 2) + "," + PadInt(c.millis, 3)
  }

  /**
   * Reads "H..H:MM:SS,mmm" back into its fields; the hour field takes every
   * character before the last ten, so hours of three or more digits parse too.
   */
  function ParseTime(t: string): Option<Clock>
  {
    if |t| < 12 then None
    else
      var n := |t|;
      var hh, mm, ss, ms := t[..n - 10], t[n - 9..n - 7], t[n - 6..n - 4], t[n - 3..];
      if t[n - 10] == ':' && t[n - 7] == ':' && t[n - 4] == ',' &&
         IsDigits(hh) && IsDigits(mm) && IsDigits(ss) && IsDigits(ms)
      then Some(Clock(ParseDecimal(hh), ParseDecimal(mm), ParseDecimal(ss), ParseDecimal(ms)))
      else None
  }

  /**
   * Every timestamp is at least 12 characters, exactly 12 below 100 hours
   * (360000 seconds), and the hour field grows without being capped.
   */
  lemma FormatTimeWidth(total: nat)
    ensures |FormatTime(total)| >= 12
    ensures total < 360000 <==> |FormatTime(total)| == 12
  {
    var c := Decompose(total);
    DecomposeSound(total);
    assert Pow10(2) == 100 && Pow10(3) == 1000;
    PadIntShape(c.hours, 2);
    PadIntShape(c.minutes, 2);
    PadIntShape(c.seconds, 2);
    PadIntShape(c.millis, 3);
    if total >= 360000 {
      assert c.hours >= 100;
      HundredNeedsThreeDigits(c.hours);
    }
  }

  lemma HundredNeedsThreeDigits(n: nat)
    requires n >= 100
    ensures |PadInt(n, 2)| >= 3
  {
    var s := NatToString(n);
    if |s| <= 2 {
      ParseNatToString(n);
      ParseBound(s);
    }
  }

  /** A numeral of at most two digits is below 100. */
  lemma ParseBound(s: string)
    requires IsDigits(s) && |s| <= 2
    ensures ParseDecimal(s) < 100
  {
    if |s| == 2 {
      assert s[..1][..0] == [];
    } else if |s| == 1 {
      assert s[..0] == [];
    }
  }

  /**
   * The timestamp holds the whole clock reading: parsing it back yields the
   * decomposition of `total`, so the seconds it denotes are `total` exactly.
   */
  lemma FormatTimeRoundTrip(total: nat)
    ensures ParseTime(FormatTime(total)) == Some(Decompose(total))
    ensures Seconds(ParseTime(FormatTime(total)).value) == total
  {
    var c := Decompose(total);
    DecomposeSound(total);
    assert Pow10(2) == 100 && Pow10(3) == 1000;
    PadIntShape(c.hours, 2);
    PadIntShape(c.minutes, 2);
    PadIntShape(c.seconds, 2);
    PadIntShape(c.millis, 3);
    ParseFields(PadInt(c.hours, 2), PadInt(c.minutes, 2), PadInt(c.seconds, 2), PadInt(c.millis, 3));
  }

  /** ParseTime reads back the four digit fields of a timestamp laid out as format_time lays it out. */
  lemma ParseFields(h: string, m: string, s: string, ms: string)
    requires IsDigits(h) && IsDigits(m) && IsDigits(s) && IsDigits(ms)
    requires |h| >= 2 && |m| == 2 && |s| == 2 && |ms| == 3
    ensures ParseTime(h + ":" + m + ":" + s + "," + ms)
         == Some(Clock(ParseDecimal(h), ParseDecimal(m), ParseDecimal(s), ParseDecimal(ms)))
  {
    Layout(h, m, s, ms);
  }

  /** Where each field of "H..H:MM:SS,mmm" sits, counted from the end. */
  lemma Layout(h: string, m: string, s: string, ms: string)
    requires |m| == 2 && |s| == 2 && |ms| == 3
    ensures var t := h + ":" + m + ":" + s + "," + ms;
      var n := |t|;
      n == |h| + 10 && t[..n - 10] == h && t[n - 9..n - 7] == m && t[n - 6..n - 4] == s &&
      t[n - 3..] == ms && t[n - 10] == ':' && t[n - 7] == ':' && t[n - 4] == ','
  {
    var tail := ":" + m + ":" + s + "," + ms;
    assert h + ":" + m + ":" + s + "," + ms == h + tail;
    assert tail[1..3] == m && tail[4..6] == s && tail[7..] == ms;
    assert tail[0] == ':' && tail[3] == ':' && tail[6] == ',';
    var t := h + tail;
    var k := |h|;
    assert t[..k] == h;
    assert t[k + 1..k + 3] == tail[1..3];
    assert t[k + 4..k + 6] == tail[4..6];
    assert t[k + 7..] == tail[7..];
  }
}
