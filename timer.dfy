/**
 * The stand-alone countdown timer page: minutes and seconds counted down once a second while
 * running, with start/pause, reset, presets, adjustment and mode buttons, and an MM:SS display.
 */
module Timer {
  import opened Text

  datatype Time = Time(minutes: int, seconds: int)

  function TotalSeconds(t: Time): int {
    60 * t.minutes + t.seconds
  }

  predicate IsZero(t: Time) {
    t.minutes == 0 && t.seconds == 0
  }

  /** What the display can show: seconds in 0..59. */
  predicate Normal(t: Time) {
    0 <= t.seconds < 60
  }

  /** The body of the interval callback when time remains: borrow a minute at `:00`, else drop a second. */
  function Countdown(t: Time): (r: Time)
    requires Normal(t) && !IsZero(t)
    ensures Normal(r)
    ensures TotalSeconds(r) == TotalSeconds(t) - 1
  {
    if t.seconds == 0 then Time(t.minutes - 1, 59) else Time(t.minutes, t.seconds - 1)
  }

  /** One firing of the interval on a time: at 0:00 it stops and the time stays; otherwise it counts down. */
  function Step(t: Time): (r: Time)
    requires Normal(t)
    ensures Normal(r)
    ensures IsZero(t) ==> r == t
    ensures !IsZero(t) ==> TotalSeconds(r) == TotalSeconds(t) - 1
  {
    if IsZero(t) then t else Countdown(t)
  }

  /** The time after `k` firings. */
  function After(t: Time, k: nat): (r: Time)
    requires Normal(t)
    ensures Normal(r)
    decreases k
  {
    if k == 0 then t else After(Step(t), k - 1)
  }

  /**
   * From a non-negative time, the first `60 * m + s` firings each take one second off and the
   * time reaches 0:00 exactly then, without passing through it earlier.
   */
  lemma {:induction false} RunsDownToZero(t: Time, k: nat)
    requires Normal(t) && t.minutes >= 0 && k <= TotalSeconds(t)
    ensures TotalSeconds(After(t, k)) == TotalSeconds(t) - k
    ensures After(t, k).minutes >= 0
    ensures IsZero(After(t, k)) <==> k == TotalSeconds(t)
    decreases k
  {
    if k > 0 {
      assert !IsZero(t);
      var u := Countdown(t);
      assert Step(t) == u && u.minutes >= 0;
      RunsDownToZero(u, k - 1);
      assert After(t, k) == After(u, k - 1);
    }
    ZeroByTotal(After(t, k));
  }

  /** A normal time with non-negative minutes is 0:00 exactly when its total is zero. */
  lemma ZeroByTotal(r: Time)
    requires Normal(r) && r.minutes >= 0
    ensures IsZero(r) <==> TotalSeconds(r) == 0
  {
  }

  /** Once at 0:00, further firings change nothing. */
  lemma {:induction false} StaysAtZero(t: Time, k: nat)
    requires Normal(t) && IsZero(t)
    ensures After(t, k) == t
    decreases k
  {
    if k > 0 {
      StaysAtZero(t, k - 1);
    }
  }

  /** `String(n).padStart(2, '0')`. */
  function TwoDigits(n: int): (r: string)
    ensures |r| >= 2
  {
    PadStart(IntToString(n), 2, '0')
  }

  /** `updateDisplay`'s text. */
  function Format(t: Time): (r: string)
    ensures |r| == |TwoDigits(t.minutes)| + 1 + |TwoDigits(t.seconds)| >= 5
    ensures r[..|TwoDigits(t.minutes)|] == TwoDigits(t.minutes) && r[|TwoDigits(t.minutes)|] == ':'
    ensures r[|TwoDigits(t.minutes)| + 1..] == TwoDigits(t.seconds)
  {
    var a, b := TwoDigits(t.minutes), TwoDigits(t.seconds);
    SplitConcat(a, [':'] + b);
    SplitConcat([':'], b);
    a + ([':'] + b)
  }

  /** A number below 100 is shown as exactly two digits that read back as the number. */
  lemma TwoDigitsRoundTrip(n: int)
    requires 0 <= n < 100
    ensures |TwoDigits(n)| == 2 && AllDigits(TwoDigits(n))
    ensures DigitsValue(TwoDigits(n)) == n
  {
    var d := NatToString(n);
    NatToStringRoundTrip(n);
    var r := TwoDigits(n);
    if n < 10 {
      assert r == ['0'] + d;
      assert r[..1] == ['0'];
      assert r[..1][..0] == [];
    } else {
      assert r == d;
    }
  }

  /** Below 100 minutes the display is `MM:SS`, and its two fields read back as the minutes and seconds. */
  lemma FormatRoundTrip(t: Time)
    requires 0 <= t.minutes < 100 && Normal(t)
    ensures |Format(t)| == 5 && Format(t)[2] == ':'
    ensures Format(t)[..2] == TwoDigits(t.minutes) && Format(t)[3..] == TwoDigits(t.seconds)
    ensures AllDigits(Format(t)[..2]) && AllDigits(Format(t)[3..])
    ensures DigitsValue(Format(t)[..2]) == t.minutes && DigitsValue(Format(t)[3..]) == t.seconds
  {
    TwoDigitsRoundTrip(t.minutes);
    TwoDigitsRoundTrip(t.seconds);
    var a, b := TwoDigits(t.minutes), TwoDigits(t.seconds);
    SplitConcat(a, [':'] + b);
    assert ([':'] + b)[0] == ':';
    SplitConcat([':'], b);
  }

  lemma SplitConcat<T>(a: seq<T>, b: seq<T>)
    ensures (a + b)[..|a|] == a && (a + b)[|a|..] == b
  {
  }

  class CountdownTimer {
    var minutes: int
    var seconds: int
    var isRunning: bool
    /** Whether an interval is registered (`timer` not cleared). */
    var intervalActive: bool

    ghost predicate Valid()
      reads this
    {
      0 <= seconds < 60 && (intervalActive <==> isRunning)
    }

    function Now(): Time
      reads this
    {
      Time(minutes, seconds)
    }

    /** The digits on the page. */
    function Display(): string
      reads this
    {
      Format(Now())
    }

    constructor ()
      ensures Valid()
      ensures minutes == 3 && seconds == 0 && !isRunning
    {
      minutes, seconds, isRunning, intervalActive := 3, 0, false, false;
    }

    /** One firing of the interval: at 0:00 it clears itself and stops; otherwise one second goes. */
    method Tick()
      requires Valid() && intervalActive
      modifies this
      ensures Valid()
      ensures IsZero(old(Now())) ==> Now() == old(Now()) && !isRunning && !intervalActive
      ensures !IsZero(old(Now())) ==> Now() == Countdown(old(Now())) && isRunning && intervalActive
      ensures Now() == Step(old(Now()))
    {
      if seconds == 0 {
        if minutes == 0 {
          intervalActive := false;
          isRunning := false;
          return;
        }
        minutes := minutes - 1;
        seconds := 59;
      } else {
        seconds := seconds - 1;
      }
    }

    /** `toggleTimer`: pause when running; otherwise start, unless no time is left. */
    method ToggleTimer()
      requires Valid()
      modifies this`isRunning, this`intervalActive
      ensures Valid()
      ensures old(isRunning) ==> !isRunning
      ensures !old(isRunning) && IsZero(Now()) ==> !isRunning
      ensures !old(isRunning) && !IsZero(Now()) ==> isRunning
    {
      if isRunning {
        intervalActive := false;
      } else {
        if minutes == 0 && seconds == 0 {
          return;
        }
        intervalActive := true;
      }
      isRunning := !isRunning;
    }

    /** `resetTimer`: 03:00, stopped. */
    method ResetTimer()
      requires Valid()
      modifies this
      ensures Valid()
      ensures minutes == 3 && seconds == 0 && !isRunning
    {
      intervalActive := false;
      minutes := 3;
      seconds := 0;
      isRunning := false;
    }

    /** `setPreset(mins)`: stopped at `mins:00`. */
    method SetPreset(mins: int)
      requires Valid()
      modifies this
      ensures Valid()
      ensures minutes == mins && seconds == 0 && !isRunning
    {
      if isRunning {
        intervalActive := false;
        isRunning := false;
      }
      minutes := mins;
      seconds := 0;
    }

    /** `adjustTime(value)`: stopped, whole minutes moved by `value` but never below one. */
    method AdjustTime(value: int)
      requires Valid()
      modifies this
      ensures Valid()
      ensures minutes == (if old(minutes) + value < 1 then 1 else old(minutes) + value)
      ensures minutes >= 1 && seconds == 0 && !isRunning
    {
      SetPreset(if minutes + value < 1 then 1 else minutes + value);
    }

    /** `switchMode(mode)`: the break preset is 5 minutes, opening and practice 10; any other mode keeps the time. */
    method SwitchMode(mode: string)
      requires Valid()
      modifies this
      ensures Valid()
      ensures mode == "break" ==> minutes == 5 && seconds == 0 && !isRunning
      ensures mode == "start" || mode == "practice" ==> minutes == 10 && seconds == 0 && !isRunning
      ensures mode != "break" && mode != "start" && mode != "practice" ==>
        minutes == old(minutes) && seconds == old(seconds) && isRunning == old(isRunning) && intervalActive == old(intervalActive)
    {
      if mode == "break" {
        SetPreset(5);
      } else if mode == "start" {
        SetPreset(10);
      } else if mode == "practice" {
        SetPreset(10);
      }
    }
  }

  /** Started from a positive time, the timer runs for exactly `60 * m + s` firings and stops on the next one. */
  method RunUntilStopped(t: CountdownTimer)
    requires t.Valid() && t.minutes >= 0 && !IsZero(t.Now()) && !t.isRunning
    modifies t
    ensures t.Valid() && IsZero(t.Now()) && !t.isRunning
  {
    t.ToggleTimer();
    ghost var start := t.Now();
    var k := 0;
    while t.isRunning
      invariant t.Valid() && Normal(start) && start.minutes >= 0
      invariant k <= TotalSeconds(start) + 1
      invariant k <= TotalSeconds(start) ==> t.Now() == After(start, k) && t.isRunning
      invariant k == TotalSeconds(start) + 1 ==> IsZero(t.Now()) && !t.isRunning
      decreases TotalSeconds(start) + 1 - k
    {
      RunsDownToZero(start, k);
      AfterStep(start, k);
      t.Tick();
      k := k + 1;
    }
  }

  /** Firing `k` times and then once more is firing `k + 1` times. */
  lemma {:induction false} AfterStep(t: Time, k: nat)
    requires Normal(t)
    ensures After(t, k + 1) == Step(After(t, k))
    decreases k
  {
    if k > 0 {
      AfterStep(Step(t), k - 1);
    }
  }
}
