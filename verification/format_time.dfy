/** The player's elapsed/duration label: `formatTime` of App.jsx, which renders
    a number of seconds as minutes, a colon and two-digit seconds. */
module Clock {
  import opened Decimal
  import opened Optional

  /** What `formatTime` is handed: a value `isNaN` accepts (undefined, NaN)
      or a whole, non-negative number of seconds. */
  datatype TimeValue = NotANumber | Whole(seconds: nat)

  /** Seconds below ten get a leading '0', as the template literal does. */
  function Pad2(n: nat): (s: string)
    requires n < 60
    ensures |s| == 2 && AllDigits(s)
    ensures Value(s) == n
  {
    ValueOfShow(n);
    if n < 10 then "0" + Show(n) else Show(n)
  }

  /** The label formatTime returns. For whole seconds the text before the
      colon denotes the minutes, the two digits after it the remaining
      seconds, and the whole label reads back as the input. */
  function FormatTime(t: TimeValue): (r: string)
    ensures t.NotANumber? ==> r == "0:00"
    ensures |r| >= 4 && r[|r| - 3] == ':'
    ensures Canonical(r[..|r| - 3]) && AllDigits(r[|r| - 2..])
    ensures t.Whole? ==> Value(r[..|r| - 3]) == t.seconds / 60
    ensures t.Whole? ==> Value(r[|r| - 2..]) == t.seconds % 60
    ensures t.Whole? ==> ParseClock(r) == Some(t.seconds)
  {
    match t
    case NotANumber => "0:00"
    case Whole(n) =>
      var m := Show(n / 60);
      var sec := Pad2(n % 60);
      ValueOfShow(n / 60);
      assert (m + ":" + sec)[..|m|] == m;
      assert (m + ":" + sec)[|m| + 1..] == sec;
      m + ":" + sec
  }

  /** Reads an `m:ss` label: canonical minutes, a colon, and two digits
      below 60. None for any other text. */
  function ParseClock(r: string): (o: Option<nat>)
    ensures o.Some? ==> |r| >= 4 && r[|r| - 3] == ':'
  {
    if |r| < 4 || r[|r| - 3] != ':' then None
    else
      var mins := r[..|r| - 3];
      var secs := r[|r| - 2..];
      if !Canonical(mins) || !AllDigits(secs) || Value(secs) >= 60 then None
      else Some(Value(mins) * 60 + Value(secs))
  }

  /** Every well-formed label is the label of the seconds it reads as, so
      FormatTime on whole seconds is a bijection onto well-formed labels. */
  lemma {:induction false} ParseThenFormat(r: string)
    requires ParseClock(r).Some?
    ensures FormatTime(Whole(ParseClock(r).value)) == r
  {
    var mins := r[..|r| - 3];
    var secs := r[|r| - 2..];
    var n := ParseClock(r).value;
    assert n / 60 == Value(mins) && n % 60 == Value(secs);
    ShowOfValue(mins);
    var f := FormatTime(Whole(n));
    assert f[..|f| - 3] == mins;
    PadOfValue(secs);
    assert f[|f| - 2..] == secs;
    assert f == f[..|f| - 3] + ":" + f[|f| - 2..];
    assert r == mins + ":" + secs;
  }

  /** Two digits below 60 are the padding of their own value. */
  lemma PadOfValue(s: string)
    requires |s| == 2 && AllDigits(s) && Value(s) < 60
    ensures Pad2(Value(s)) == s
  {
    assert s[..1] == [s[0]];
    var v := Value(s);
    if s[0] != '0' {
      assert Canonical(s);
      ShowOfValue(s);
    } else {
      assert v == DigitValue(s[1]);
      assert Show(v) == [s[1]];
      assert s == "0" + [s[1]];
    }
  }

  /** The two labels the player shows before any track is loaded, and the
      label for 125 seconds. */
  lemma Examples()
    ensures FormatTime(NotANumber) == "0:00"
    ensures FormatTime(Whole(0)) == "0:00"
    ensures FormatTime(Whole(125)) == "2:05"
  {
  }
}
