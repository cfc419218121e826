/** `formatTime`: a playback position in seconds shown as minutes and
    seconds, each padded to two digits, separated by ':'. */
module TimeFormat {
  import opened Strings

  /** Whole minutes of a non-negative position: Math.floor(seconds / 60). */
  function Minutes(seconds: real): (m: int)
    requires seconds >= 0.0
    ensures m >= 0 && (m * 60) as real <= seconds < (m * 60 + 60) as real
  {
    (seconds / 60.0).Floor
  }

  /** Whole seconds past the minute: Math.floor(seconds % 60); for a
      non-negative position `%` leaves seconds - 60 * floor(seconds / 60). */
  function SecondsPart(seconds: real): (s: int)
    requires seconds >= 0.0
    ensures 0 <= s < 60
    ensures (Minutes(seconds) * 60 + s) as real <= seconds < (Minutes(seconds) * 60 + s + 1) as real
  {
    (seconds - 60.0 * Minutes(seconds) as real).Floor
  }

  /** A number below 100 pads to exactly two digits. */
  lemma TwoDigits(n: nat)
    requires n < 100
    ensures |PadStartZero(NatToString(n), 2)| == 2
  {
    if n >= 10 {
      assert NatToString(n) == NatToString(n / 10) + [DigitChar(n % 10)];
    }
  }

  /** A number below 100 has at most two digits. */
  lemma ShortNumber(n: nat)
    ensures n < 100 ==> |NatToString(n)| <= 2
  {
    if 10 <= n < 100 {
      assert NatToString(n) == NatToString(n / 10) + [DigitChar(n % 10)];
    }
  }

  /** The display of `mins` and `secs`: each padded to two digits, joined by ':'. */
  function Clock(mins: nat, secs: nat): (r: string)
    requires secs < 60
    ensures |r| == 3 + (if |NatToString(mins)| < 2 then 2 else |NatToString(mins)|) && r[|r| - 3] == ':'
    ensures AllDigits(r[..|r| - 3]) && AllDigits(r[|r| - 2..])
  {
    var ms, ss := PadStartZero(NatToString(mins), 2), PadStartZero(NatToString(secs), 2);
    TwoDigits(secs);
    PadStartZeroValue(NatToString(mins), 2);
    PadStartZeroValue(NatToString(secs), 2);
    ClockParts(ms, ss);
    ms + ":" + ss
  }

  /** The two numbers of a display read back from either side of its ':'. */
  lemma ClockParts(ms: string, ss: string)
    requires |ms| >= 2 && |ss| == 2 && AllDigits(ms) && AllDigits(ss)
    ensures var r := ms + ":" + ss;
      |r| >= 5 && r[|r| - 3] == ':' && AllDigits(r[..|r| - 3]) && AllDigits(r[|r| - 2..]) &&
      DigitsValue(r[..|r| - 3]) == DigitsValue(ms) && DigitsValue(r[|r| - 2..]) == DigitsValue(ss)
  {
    var r := ms + ":" + ss;
    assert r[..|r| - 3] == ms && r[|r| - 2..] == ss;
  }

  /** `r` is a display whose digits before the ':' read as `mins` and whose
      two digits after it read as `secs`. */
  predicate Shows(r: string, mins: nat, secs: nat) {
    |r| >= 5 && r[|r| - 3] == ':' && AllDigits(r[..|r| - 3]) && AllDigits(r[|r| - 2..]) &&
    DigitsValue(r[..|r| - 3]) == mins && DigitsValue(r[|r| - 2..]) == secs
  }

  /** Reading a clock display back gives both numbers. */
  lemma ClockReadsBack(mins: nat, secs: nat)
    requires secs < 60
    ensures Shows(Clock(mins, secs), mins, secs)
  {
    var ms, ss := PadStartZero(NatToString(mins), 2), PadStartZero(NatToString(secs), 2);
    assert AllDigits(ms) && DigitsValue(ms) == mins by {
      NatToStringValue(mins);
      PadStartZeroValue(NatToString(mins), 2);
    }
    assert AllDigits(ss) && DigitsValue(ss) == secs by {
      NatToStringValue(secs);
      PadStartZeroValue(NatToString(secs), 2);
    }
    TwoDigits(secs);
    ClockParts(ms, ss);
    assert Clock(mins, secs) == ms + ":" + ss;
  }

  /** `formatTime(seconds)` for a playback position. */
  function FormatTime(seconds: real): (r: string)
    requires seconds >= 0.0
    ensures |r| >= 5 && r[|r| - 3] == ':'
    ensures Minutes(seconds) < 100 ==> |r| == 5
  {
    ShortNumber(Minutes(seconds));
    Clock(Minutes(seconds), SecondsPart(seconds))
  }

  /** Reading the display back gives the whole minutes and seconds elapsed:
      the position lies within the second the display names. */
  lemma FormatTimeReadsBack(seconds: real)
    requires seconds >= 0.0
    ensures Shows(FormatTime(seconds), Minutes(seconds), SecondsPart(seconds))
    ensures var m, s := Minutes(seconds), SecondsPart(seconds);
      s < 60 && (m * 60 + s) as real <= seconds < (m * 60 + s + 1) as real
  {
    var m, s := Minutes(seconds), SecondsPart(seconds);
    ClockReadsBack(m, s);
    assert Shows(FormatTime(seconds), m, s);
  }
}
