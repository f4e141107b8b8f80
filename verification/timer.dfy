/** The elapsed-time display of the chat front end (chatbot_ui/src/components/ui/timer.tsx):
    a counter that an interval increments once a second while running, shown as `mm:ss`.
    The interval itself is outside the model: each tick is an explicit step. */
module Timer {
  import opened Text

  /** The component's state: the counter and whether an interval is installed. */
  datatype Timer = Timer(secondsElapsed: nat, ticking: bool)

  /** A freshly mounted timer. */
  const Mounted := Timer(0, false)

  /** The effect of a new `isRunning`: an interval is installed when running and cleared
      otherwise; the count is never reset. */
  function SetRunning(t: Timer, isRunning: bool): (r: Timer)
    ensures r.ticking == isRunning
    ensures r.secondsElapsed == t.secondsElapsed
  {
    Timer(t.secondsElapsed, isRunning)
  }

  /** One interval callback, `prev + 1`; without an interval nothing happens. */
  function Tick(t: Timer): (r: Timer)
    ensures r.ticking == t.ticking
    ensures r.secondsElapsed == if t.ticking then t.secondsElapsed + 1 else t.secondsElapsed
  {
    if t.ticking then t.(secondsElapsed := t.secondsElapsed + 1) else t
  }

  function Ticks(t: Timer, n: nat): Timer
    decreases n
  {
    if n == 0 then t else Ticks(Tick(t), n - 1)
  }

  /** `n` seconds of running add exactly `n` to the count. */
  lemma {:induction false} RunningCounts(t: Timer, n: nat)
    requires t.ticking
    ensures Ticks(t, n) == Timer(t.secondsElapsed + n, true)
    decreases n
  {
    if n > 0 {
      RunningCounts(Tick(t), n - 1);
    }
  }

  /** A stopped timer keeps its count however long it waits. */
  lemma {:induction false} StoppedKeepsCount(t: Timer, n: nat)
    requires !t.ticking
    ensures Ticks(t, n) == t
    decreases n
  {
    if n > 0 {
      StoppedKeepsCount(Tick(t), n - 1);
    }
  }

  /** Start, run `a` seconds, stop, wait `b` seconds, start, run `c` seconds: `a + c`. */
  lemma StopDoesNotReset(a: nat, b: nat, c: nat)
    ensures Ticks(SetRunning(Ticks(SetRunning(Ticks(SetRunning(Mounted, true), a), false), b), true), c).secondsElapsed == a + c
  {
    RunningCounts(SetRunning(Mounted, true), a);
    StoppedKeepsCount(SetRunning(Ticks(SetRunning(Mounted, true), a), false), b);
    RunningCounts(SetRunning(Ticks(SetRunning(Ticks(SetRunning(Mounted, true), a), false), b), true), c);
  }

  // ---------------------------------------------------------------- display

  /** `Math.floor(secondsElapsed / 60)` and `secondsElapsed % 60` for a non-negative count. */
  function Split(secondsElapsed: nat): (r: (nat, nat))
    ensures r.0 * 60 + r.1 == secondsElapsed
    ensures 0 <= r.1 < 60
  {
    (secondsElapsed / 60, secondsElapsed % 60)
  }

  /** `toString().padStart(2, "0")`. */
  function TwoDigits(n: nat): (r: string)
    ensures |r| >= 2 && AllDigits(r)
    ensures n < 100 ==> |r| == 2
  {
    var d := NatToString(n);
    assert n < 100 ==> |d| <= 2 by {
      if n >= 10 && n < 100 {
        assert NatToString(n) == NatToString(n / 10) + [DigitChar(n % 10)];
      }
    }
    PadStart(d, 2, '0')
  }

  /** The rendered `mm:ss`. */
  function Display(secondsElapsed: nat): (r: string)
    ensures |r| >= 5 && r[|r| - 3] == ':'
    ensures secondsElapsed < 6000 ==> |r| == 5
  {
    var (m, s) := Split(secondsElapsed);
    TwoDigits(m) + ":" + TwoDigits(s)
  }

  /** Padding with zeros does not change the number the digits denote. */
  lemma TwoDigitsValue(n: nat)
    ensures ParseNat(TwoDigits(n)) == n
  {
    var d := NatToString(n);
    ParseNatToString(n);
    if |d| < 2 {
      assert TwoDigits(n) == seq(2 - |d|, _ => '0') + d;
      ParseNatLeadingZeros(2 - |d|, d);
    }
  }

  /** Two digit strings joined by a colon split back into the two. */
  lemma SplitAtColon(a: string, b: string)
    requires AllDigits(a) && AllDigits(b)
    ensures SplitOn(a + ":" + b, ":") == [a, b]
  {
    assert forall i :: 0 <= i < |a| ==> a[i] != ':';
    assert forall i :: 0 <= i < |b| ==> b[i] != ':';
    SplitOnCons(a, ':', b);
    SplitOnAbsent(b, ':');
  }

  /** Reading the display back: minutes times sixty plus seconds is the count. */
  lemma DisplayRoundTrip(secondsElapsed: nat)
    ensures var parts := SplitOn(Display(secondsElapsed), ":");
      |parts| == 2 && AllDigits(parts[0]) && AllDigits(parts[1])
      && ParseNat(parts[0]) * 60 + ParseNat(parts[1]) == secondsElapsed
  {
    var (m, s) := Split(secondsElapsed);
    var mm := TwoDigits(m);
    var ss := TwoDigits(s);
    assert SplitOn(Display(secondsElapsed), ":") == [mm, ss] by {
      SplitAtColon(mm, ss);
    }
    TwoDigitsValue(m);
    TwoDigitsValue(s);
  }
}
