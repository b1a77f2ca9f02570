/** utils/utils.go: the elapsed-time display as a free function of the seconds. */
module Utils {
  import opened Wrappers
  import opened Ints
  import opened Text
  import Strava

  /** The `%d:%02d:%02d` display of `elapsedTime` seconds. */
  function TimeFormatted(elapsedTime: U32): (r: string)
    ensures |r| >= 7 && r[|r| - 6] == ':' && r[|r| - 3] == ':'
    ensures r[..|r| - 6] == NatToDecimal(elapsedTime / 3600)
  {
    var hours := elapsedTime / 3600;
    var remainingSeconds := elapsedTime % 3600;
    var minutes := remainingSeconds / 60;
    var seconds := remainingSeconds % 60;
    Pad2TwoDigits(minutes);
    Pad2TwoDigits(seconds);
    Strava.ClockLayout(NatToDecimal(hours), Pad2(minutes), Pad2(seconds));
    NatToDecimal(hours) + ":" + Pad2(minutes) + ":" + Pad2(seconds)
  }

  /** The three fields: minutes and seconds below 60, two digits each, and they add back up to the time. */
  lemma TimeFormattedFields(elapsedTime: U32)
    ensures var r := TimeFormatted(elapsedTime);
      var h, m, s := elapsedTime / 3600, (elapsedTime % 3600) / 60, elapsedTime % 60;
      m < 60 && s < 60 && h * 3600 + m * 60 + s == elapsedTime &&
      Pad2(m) == r[|r| - 5..|r| - 3] && Pad2(s) == r[|r| - 2..] &&
      |Pad2(m)| == 2 && DecimalValue(Pad2(m)) == m && |Pad2(s)| == 2 && DecimalValue(Pad2(s)) == s
  {
    var h, m, s := elapsedTime / 3600, (elapsedTime % 3600) / 60, elapsedTime % 60;
    Strava.ClockSplit(elapsedTime);
    Pad2TwoDigits(m);
    Pad2TwoDigits(s);
    Strava.ClockLayout(NatToDecimal(h), Pad2(m), Pad2(s));
  }

  /** The free function and the activity method print the same text for the same seconds. */
  lemma SameAsActivity(a: Strava.Activity)
    ensures TimeFormatted(a.elapsedTime) == a.TimeFormatted()
  {
  }

  /** So the display has exactly two ':' and reads back to the elapsed time. */
  lemma TimeFormattedRoundTrip(elapsedTime: U32)
    ensures var r := TimeFormatted(elapsedTime);
      Strava.ParseClock(r) == Some(elapsedTime as nat) &&
      forall i :: 0 <= i < |r| ==> (r[i] == ':' <==> i == |r| - 6 || i == |r| - 3)
  {
    var a := Strava.Activity(0, "", elapsedTime, "", 0, 0);
    SameAsActivity(a);
    Strava.TimeFormattedRoundTrip(a);
    Strava.TimeFormattedColons(a);
  }
}
