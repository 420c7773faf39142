/** The voice recorder's `formatDuration`: a recording length in
    milliseconds shown as minutes, a colon and two-digit seconds. */
module VoiceRecorder {
  import opened Text

  /** Whole minutes and the remaining whole seconds of a duration. */
  function Minutes(ms: nat): nat { ms / 1000 / 60 }
  function Seconds(ms: nat): (s: nat)
    ensures s < 60
    ensures Minutes(ms) * 60 + s == ms / 1000
  {
    ms / 1000 % 60
  }

  /** JavaScript `s.padStart(width, fill)`. */
  function PadStart(s: string, width: nat, fill: char): (r: string)
    ensures |r| == if |s| < width then width else |s|
    ensures r[|r| - |s|..] == s
    ensures forall i :: 0 <= i < |r| - |s| ==> r[i] == fill
  {
    if |s| < width then seq(width - |s|, _ => fill) + s else s
  }

  /** `m:ss`: the minutes in decimal without padding, a colon, and the
      seconds padded with zeros to two digits. Reading the text back gives
      the two numbers, so the text stands for exactly the whole seconds of
      the duration. */
  function FormatDuration(ms: nat): (r: string)
    ensures |r| >= 4 && r[|r| - 3] == ':'
    ensures AllDigits(r[..|r| - 3]) && AllDigits(r[|r| - 2..])
    ensures DigitsValue(r[..|r| - 3]) == Minutes(ms)
    ensures DigitsValue(r[|r| - 2..]) == Seconds(ms)
    ensures |r| > 4 ==> r[0] != '0'
  {
    var m := NatToString(Minutes(ms));
    var s := PadStart(NatToString(Seconds(ms)), 2, '0');
    TwoDigitSeconds(Seconds(ms));
    var r := m + ":" + s;
    assert r[..|r| - 3] == m;
    assert r[|r| - 2..] == s;
    r
  }

  /** Padding a number below 60 gives two digits of the same value. */
  lemma TwoDigitSeconds(n: nat)
    requires n < 60
    ensures var s := PadStart(NatToString(n), 2, '0');
            |s| == 2 && AllDigits(s) && DigitsValue(s) == n
  {
    var t := NatToString(n);
    if n < 10 {
      assert t == [DigitChar(n)];
      var s := PadStart(t, 2, '0');
      assert s == ['0', DigitChar(n)];
      assert s[..1] == ['0'];
    } else {
      var p := NatToString(n / 10);
      assert t == p + [DigitChar(n % 10)];
      assert p == [DigitChar(n / 10)];
    }
  }

  /** Two durations give the same text exactly when they have the same
      whole number of seconds. */
  lemma FormatDurationSameSeconds(a: nat, b: nat)
    ensures FormatDuration(a) == FormatDuration(b) <==> a / 1000 == b / 1000
  {
    var ra := FormatDuration(a);
    var rb := FormatDuration(b);
    if ra == rb {
      assert Minutes(a) == Minutes(b) && Seconds(a) == Seconds(b);
      assert Minutes(a) * 60 + Seconds(a) == Minutes(b) * 60 + Seconds(b);
    }
    if a / 1000 == b / 1000 {
      FormatDurationParts(a);
      FormatDurationParts(b);
    }
  }

  /** A longer recording never shows an earlier (minutes, seconds) pair. */
  lemma FormatDurationMonotone(a: nat, b: nat)
    requires a <= b
    ensures Minutes(a) < Minutes(b) || (Minutes(a) == Minutes(b) && Seconds(a) <= Seconds(b))
  {
    assert a / 1000 <= b / 1000;
    assert a / 1000 / 60 <= b / 1000 / 60;
  }

  /** For example, 75 seconds show as "1:15" and 5 seconds as "0:05". */
  lemma FormatDurationExamples()
    ensures FormatDuration(75000) == "1:15"
    ensures FormatDuration(5999) == "0:05"
  {
    ShowsOneFifteen();
    ShowsZeroFive();
  }

  lemma ShowsOneFifteen()
    ensures FormatDuration(75000) == "1:15"
  {
    assert 75000 / 1000 == 75 && 75 / 60 == 1 && 75 % 60 == 15;
    assert NatToString(1) == "1";
    assert NatToString(15) == "15" by {
      assert NatToString(15) == NatToString(1) + [DigitChar(5)];
    }
    FormatDurationParts(75000);
    assert PadStart("15", 2, '0') == "15";
  }

  lemma ShowsZeroFive()
    ensures FormatDuration(5999) == "0:05"
  {
    assert 5999 / 1000 == 5 && 5 / 60 == 0 && 5 % 60 == 5;
    assert NatToString(0) == "0";
    assert NatToString(5) == "5";
    FormatDurationParts(5999);
    assert PadStart("5", 2, '0') == "05";
  }

  /** The three parts of the text. */
  lemma FormatDurationParts(ms: nat)
    ensures FormatDuration(ms) == NatToString(Minutes(ms)) + ":" + PadStart(NatToString(Seconds(ms)), 2, '0')
  {
  }
}
