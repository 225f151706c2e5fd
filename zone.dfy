/**
 * The behaviour-zone page: a zone colour kept in local storage and a countdown timer
 * driven by a one-second interval, shown as `MM:SS`.
 */
module Zone {
  import opened Wrappers
  import opened Text

  datatype ZoneColour = Red | Orange | Green

  /** The string a zone is stored as. */
  function ZoneName(z: ZoneColour): (s: string)
    ensures s in {"red", "orange", "green"}
  {
    match z
    case Red => "red"
    case Orange => "orange"
    case Green => "green"
  }

  /** The check applied to a saved zone: only the three literal names are accepted. */
  function ParseZone(s: string): (r: Option<ZoneColour>)
    ensures r.Some? <==> s == "red" || s == "orange" || s == "green"
  {
    if s == "red" then Some(Red)
    else if s == "orange" then Some(Orange)
    else if s == "green" then Some(Green)
    else None
  }

  /** Storing a zone and reading it back gives the zone; an accepted string is exactly
      the name of the zone it gives. */
  lemma ZoneRoundTrip(z: ZoneColour, s: string)
    ensures ParseZone(ZoneName(z)) == Some(z)
    ensures ParseZone(s) == Some(z) ==> s == ZoneName(z)
  {
  }

  /** JavaScript's `%`: the remainder takes the sign of the dividend. */
  function JsRem(a: int, b: int): (r: int)
    requires b > 0
    ensures a >= 0 ==> 0 <= r < b
    ensures a < 0 ==> -b < r <= 0
  {
    if a >= 0 then a % b else -((-a) % b)
  }

  /** `pad`: a leading `'0'` before any number below 10, negative ones included. */
  function Pad(n: int): (r: string)
    ensures |r| >= 2
    ensures n >= 0 ==> forall i :: 0 <= i < |r| ==> IsDigit(r[i])
    ensures n < 0 ==> r[..2] == "0-"
  {
    if n < 10 then "0" + IntToString(n) else IntToString(n)
  }

  /** `formatTime`: `Math.floor(s / 60)` minutes and `s % 60` seconds. */
  function FormatTime(remainingSeconds: int): (r: string)
    ensures |r| >= 5
    ensures remainingSeconds >= 0 ==> IsDigit(r[0]) && IsDigit(r[1])
    ensures remainingSeconds < 0 ==> r[..2] == "0-"
  {
    Pad(remainingSeconds / 60) + ":" + Pad(JsRem(remainingSeconds, 60))
  }

  /** For a value from 0 to 99 the pad is two digits that read back as the value. */
  lemma PadTwoDigits(n: int)
    requires 0 <= n <= 99
    ensures |Pad(n)| == 2 && IsDigit(Pad(n)[0]) && IsDigit(Pad(n)[1])
    ensures DigitsValue(Pad(n)) == n
  {
    NatToStringRoundTrip(n);
    if n < 10 {
      assert Pad(n) == "0" + NatToString(n);
      assert Pad(n)[..1] == "0";
    } else {
      assert NatToString(n) == NatToString(n / 10) + [DigitChar(n % 10)];
    }
  }

  /** From a non-negative count the minutes and seconds shown add back up to it, with
      fewer than 60 seconds. */
  lemma FormatParts(remainingSeconds: int)
    requires remainingSeconds >= 0
    ensures var minutes := remainingSeconds / 60;
      var seconds := JsRem(remainingSeconds, 60);
      minutes * 60 + seconds == remainingSeconds && 0 <= seconds < 60 && minutes >= 0
  {
  }

  /** Below 100 minutes the display is `MM:SS` and decodes to the count. */
  lemma FormatRoundTrip(remainingSeconds: int)
    requires 0 <= remainingSeconds < 6000
    ensures var t := FormatTime(remainingSeconds);
      && |t| == 5 && t[2] == ':'
      && (forall i :: 0 <= i < 5 && i != 2 ==> IsDigit(t[i]))
      && DigitsValue(t[..2]) * 60 + DigitsValue(t[3..]) == remainingSeconds
  {
    var minutes := remainingSeconds / 60;
    var seconds := JsRem(remainingSeconds, 60);
    PadTwoDigits(minutes);
    PadTwoDigits(seconds);
    var t := FormatTime(remainingSeconds);
    assert t[..2] == Pad(minutes);
    assert t[3..] == Pad(seconds);
  }

  /** The mix of flooring division and truncating remainder does not add back up for a
      negative count: -5 seconds shows minute -1 and second -5. */
  lemma NegativeCountDoesNotAddUp()
    ensures (-5) / 60 == -1 && JsRem(-5, 60) == -5
    ensures (-5) / 60 * 60 + JsRem(-5, 60) != -5
  {
  }

  class ZoneTimer {
    var currentZone: ZoneColour
    var minutesInput: int
    var remainingSeconds: int
    var isRunning: bool
    /** Live one-second intervals. */
    var intervals: nat

    /** A tick is scheduled exactly while the timer runs, and never twice. */
    ghost predicate Valid()
      reads this
    {
      intervals == if isRunning then 1 else 0
    }

    constructor ()
      ensures Valid() && currentZone == Green && minutesInput == 5 && remainingSeconds == 0
      ensures !isRunning
    {
      currentZone := Green;
      minutesInput := 5;
      remainingSeconds := 0;
      isRunning := false;
      intervals := 0;
    }

    /** The saved-zone part of `ngOnInit`: an accepted saved string sets the zone,
        anything else (or nothing saved) keeps it. */
    method LoadSavedZone(saved: Option<string>)
      modifies this`currentZone
      ensures saved.Some? && ParseZone(saved.value).Some? ==> currentZone == ParseZone(saved.value).value
      ensures saved.None? || ParseZone(saved.value).None? ==> currentZone == old(currentZone)
    {
      if saved.Some? {
        var z := ParseZone(saved.value);
        if z.Some? {
          currentZone := z.value;
        }
      }
    }

    /** `setZone`: sets the zone and returns the string written to storage. */
    method SetZone(zone: ZoneColour) returns (stored: string)
      modifies this`currentZone
      ensures currentZone == zone && ParseZone(stored) == Some(zone)
    {
      currentZone := zone;
      stored := ZoneName(zone);
    }

    /** `startTimer`: nothing while running; otherwise reloads `minutesInput * 60` when
        the count is used up, and starts one interval. */
    method StartTimer()
      requires Valid()
      modifies this`remainingSeconds, this`isRunning, this`intervals
      ensures Valid() && isRunning
      ensures old(isRunning) ==> remainingSeconds == old(remainingSeconds) && intervals == old(intervals)
      ensures !old(isRunning) && old(remainingSeconds) <= 0 ==> remainingSeconds == minutesInput * 60
      ensures !old(isRunning) && old(remainingSeconds) > 0 ==> remainingSeconds == old(remainingSeconds)
    {
      if isRunning {
        return;
      }
      if remainingSeconds <= 0 {
        remainingSeconds := minutesInput * 60;
      }
      isRunning := true;
      intervals := intervals + 1;
    }

    /** One run of the interval callback: count down while positive, stop at zero. */
    method Tick()
      requires Valid() && intervals > 0
      modifies this`remainingSeconds, this`isRunning, this`intervals
      ensures Valid()
      ensures old(remainingSeconds) > 0 ==> remainingSeconds == old(remainingSeconds) - 1 && isRunning
      ensures old(remainingSeconds) <= 0 ==> remainingSeconds == old(remainingSeconds) && !isRunning
      ensures old(remainingSeconds) >= 0 ==> remainingSeconds >= 0
    {
      if remainingSeconds > 0 {
        remainingSeconds := remainingSeconds - 1;
      } else {
        StopTimer();
      }
    }

    /** `pauseTimer`: nothing when not running; otherwise clears the interval and stops,
        keeping the count. */
    method PauseTimer()
      requires Valid()
      modifies this`isRunning, this`intervals
      ensures Valid() && !isRunning
    {
      if !isRunning {
        return;
      }
      intervals := 0;
      isRunning := false;
    }

    /** `resetTimer`: stopped with nothing left to count. */
    method ResetTimer()
      requires Valid()
      modifies this`remainingSeconds, this`isRunning, this`intervals
      ensures Valid() && !isRunning && remainingSeconds == 0
    {
      intervals := 0;
      isRunning := false;
      remainingSeconds := 0;
    }

    /** `stopTimer`: clears the interval and stops, keeping the count. */
    method StopTimer()
      requires Valid()
      modifies this`isRunning, this`intervals
      ensures Valid() && !isRunning
    {
      intervals := 0;
      isRunning := false;
    }
  }
}
