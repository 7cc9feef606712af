/**
 * The "Time Remaining" field of the PiggyBank page: what one tick of the
 * once-a-second timer shows, how it is written out, and the component state
 * that the timer and the `timeLeft` effect update.
 */
module Countdown {
  import opened Options
  import Decimal

  const SecondsPerMinute := 60
  const SecondsPerHour := 3600
  const SecondsPerDay := 86400

  /**
   * The text in the field. `Blank` is the initial empty string, shown until the
   * effect or the first tick writes something.
   */
  datatype Display =
    | Blank
    | NoLock
    | Unlocked
    | Remaining(days: nat, hours: nat, minutes: nat, seconds: nat)

  /** A well-formed breakdown: every unit below the next one up. */
  predicate InRange(d: Display)
    requires d.Remaining?
  {
    d.hours < 24 && d.minutes < 60 && d.seconds < 60
  }

  /** The number of seconds a breakdown stands for. */
  function TotalSeconds(d: Display): int
    requires d.Remaining?
  {
    d.days * SecondsPerDay + d.hours * SecondsPerHour + d.minutes * SecondsPerMinute + d.seconds
  }

  /**
   * Days, hours, minutes and seconds of a positive number of seconds, each taken
   * by floor division and remainder.
   */
  function Decompose(remaining: int): (d: Display)
    requires remaining > 0
    ensures d.Remaining? && InRange(d)
    ensures TotalSeconds(d) == remaining
  {
    var r: nat := remaining;
    var rest := r % SecondsPerDay;
    assert r % SecondsPerHour == rest % SecondsPerHour;
    assert r % SecondsPerMinute == (rest % SecondsPerHour) % SecondsPerMinute;
    Remaining(r / SecondsPerDay, rest / SecondsPerHour,
              (r % SecondsPerHour) / SecondsPerMinute, r % SecondsPerMinute)
  }

  /** A breakdown in range is the breakdown of the seconds it stands for. */
  lemma DecomposeUnique(d: Display)
    requires d.Remaining? && InRange(d) && TotalSeconds(d) > 0
    ensures Decompose(TotalSeconds(d)) == d
  {
  }

  /** The lock test of the effect: `timeLeft && timeLeft > 0`. */
  predicate HasLock(timeLeft: Option<int>) {
    timeLeft.Some? && timeLeft.value > 0
  }

  /**
   * One tick: the value read from `getTimeLeft` minus the wall clock in whole
   * seconds. The read value is a duration but is compared with the clock as if
   * it were an unlock timestamp, exactly as the page does.
   */
  function TickDisplay(timeLeft: int, nowSeconds: int): (d: Display)
    ensures d.Unlocked? <==> timeLeft - nowSeconds <= 0
    ensures d.Remaining? <==> timeLeft - nowSeconds > 0
    ensures d.Remaining? ==> InRange(d) && TotalSeconds(d) == timeLeft - nowSeconds
  {
    var remaining := timeLeft - nowSeconds;
    if remaining > 0 then Decompose(remaining) else Unlocked
  }

  /** `Math.floor(Date.now() / 1000)`; Dafny's division by a positive divisor floors. */
  function WholeSeconds(nowMillis: int): (s: int)
    ensures s * 1000 <= nowMillis < s * 1000 + 1000
  {
    nowMillis / 1000
  }

  /**
   * What the field settles on for a given read and clock: "No lock period" when
   * there is no positive read, otherwise what a tick at that clock shows.
   */
  function Shown(timeLeft: Option<int>, nowMillis: int): (d: Display)
    ensures d.NoLock? <==> !HasLock(timeLeft)
    ensures d != Blank
    ensures HasLock(timeLeft) ==> d == TickDisplay(timeLeft.value, WholeSeconds(nowMillis))
  {
    if HasLock(timeLeft) then TickDisplay(timeLeft.value, WholeSeconds(nowMillis)) else NoLock
  }

  /** Without a positive read, the clock makes no difference. */
  lemma NoLockWhateverTheClock(timeLeft: Option<int>, t1: int, t2: int)
    requires !HasLock(timeLeft)
    ensures Shown(timeLeft, t1) == Shown(timeLeft, t2) == NoLock
  {
  }

  /** Once a tick shows "Unlocked!", every later tick for the same read does too. */
  lemma UnlockedStaysUnlocked(timeLeft: int, t1: int, t2: int)
    requires t1 <= t2
    requires TickDisplay(timeLeft, WholeSeconds(t1)) == Unlocked
    ensures TickDisplay(timeLeft, WholeSeconds(t2)) == Unlocked
  {
  }

  /** While counting, a later clock never shows more time left. */
  lemma CountsDown(timeLeft: int, t1: int, t2: int)
    requires t1 <= t2
    requires TickDisplay(timeLeft, WholeSeconds(t2)).Remaining?
    ensures TickDisplay(timeLeft, WholeSeconds(t1)).Remaining?
    ensures TotalSeconds(TickDisplay(timeLeft, WholeSeconds(t2)))
         <= TotalSeconds(TickDisplay(timeLeft, WholeSeconds(t1)))
  {
  }

  /**
   * Because the read is compared with the clock, any positive read no later
   * than the clock (a duration of a day, say, against today's Unix time) is
   * shown as "Unlocked!".
   */
  lemma ReadTakenAsTimestamp(timeLeft: int, nowMillis: int)
    requires 0 < timeLeft <= WholeSeconds(nowMillis)
    ensures Shown(Some(timeLeft), nowMillis) == Unlocked
  {
  }

  /** The text of a breakdown after its day count. */
  function AfterDays(d: Display): string
    requires d.Remaining?
  {
    "d " + Decimal.NatToString(d.hours) + AfterHours(d)
  }

  /** The text of a breakdown after its hour count. */
  function AfterHours(d: Display): string
    requires d.Remaining?
  {
    "h " + Decimal.NatToString(d.minutes) + AfterMinutes(d)
  }

  /** The text of a breakdown after its minute count. */
  function AfterMinutes(d: Display): string
    requires d.Remaining?
  {
    "m " + Decimal.NatToString(d.seconds) + "s"
  }

  /**
   * The string the field holds, as the page writes it. Only the initial state
   * is empty, and a breakdown starts with a digit and ends in "s", so it never
   * reads like one of the two fixed messages.
   */
  function Render(d: Display): (s: string)
    ensures s == "" <==> d.Blank?
    ensures d.Remaining? ==> Decimal.IsDigit(s[0]) && s[|s| - 1] == 's'
    ensures d.Remaining? ==> s != "Unlocked!" && s != "No lock period"
    ensures d.NoLock? ==> s == "No lock period"
    ensures d.Unlocked? ==> s == "Unlocked!"
  {
    match d
    case Blank => ""
    case NoLock => "No lock period"
    case Unlocked => "Unlocked!"
    case Remaining(days, _, _, _) => Decimal.NatToString(days) + AfterDays(d)
  }

  /**
   * A run of digits followed by something that does not start with a digit
   * splits only one way.
   */
  lemma SplitAtDigits(x: string, y: string, restX: string, restY: string)
    requires Decimal.AllDigits(x) && Decimal.AllDigits(y)
    requires restX != [] && !Decimal.IsDigit(restX[0])
    requires restY != [] && !Decimal.IsDigit(restY[0])
    requires x + restX == y + restY
    ensures x == y && restX == restY
  {
    var s := x + restX;
    assert forall k :: 0 <= k < |x| ==> Decimal.IsDigit(s[k]);
    assert !Decimal.IsDigit(s[|x|]);
    assert forall k :: 0 <= k < |y| ==> Decimal.IsDigit(s[k]);
    assert !Decimal.IsDigit(s[|y|]);
    assert x == s[..|x|] && restX == s[|x|..];
    assert y == s[..|y|] && restY == s[|y|..];
  }

  /** A unit's digits followed by the rest of the text determine both. */
  lemma SplitUnit(a: nat, b: nat, restA: string, restB: string)
    requires restA != [] && !Decimal.IsDigit(restA[0])
    requires restB != [] && !Decimal.IsDigit(restB[0])
    requires Decimal.NatToString(a) + restA == Decimal.NatToString(b) + restB
    ensures a == b && restA == restB
  {
    SplitAtDigits(Decimal.NatToString(a), Decimal.NatToString(b), restA, restB);
    Decimal.NatToStringInjective(a, b);
  }

  /** Equal texts after the minute count have equal seconds. */
  lemma AfterMinutesInjective(p: Display, q: Display)
    requires p.Remaining? && q.Remaining?
    requires AfterMinutes(p) == AfterMinutes(q)
    ensures p.seconds == q.seconds
  {
    assert AfterMinutes(p)[2..] == Decimal.NatToString(p.seconds) + "s";
    assert AfterMinutes(q)[2..] == Decimal.NatToString(q.seconds) + "s";
    SplitUnit(p.seconds, q.seconds, "s", "s");
  }

  /** Equal texts after the hour count have equal minutes and seconds. */
  lemma AfterHoursInjective(p: Display, q: Display)
    requires p.Remaining? && q.Remaining?
    requires AfterHours(p) == AfterHours(q)
    ensures p.minutes == q.minutes && p.seconds == q.seconds
  {
    assert AfterHours(p)[2..] == Decimal.NatToString(p.minutes) + AfterMinutes(p);
    assert AfterHours(q)[2..] == Decimal.NatToString(q.minutes) + AfterMinutes(q);
    SplitUnit(p.minutes, q.minutes, AfterMinutes(p), AfterMinutes(q));
    AfterMinutesInjective(p, q);
  }

  /** Equal texts after the day count have equal hours, minutes and seconds. */
  lemma AfterDaysInjective(p: Display, q: Display)
    requires p.Remaining? && q.Remaining?
    requires AfterDays(p) == AfterDays(q)
    ensures p.hours == q.hours && p.minutes == q.minutes && p.seconds == q.seconds
  {
    assert AfterDays(p)[2..] == Decimal.NatToString(p.hours) + AfterHours(p);
    assert AfterDays(q)[2..] == Decimal.NatToString(q.hours) + AfterHours(q);
    SplitUnit(p.hours, q.hours, AfterHours(p), AfterHours(q));
    AfterHoursInjective(p, q);
  }

  /** Two breakdowns that read the same are the same breakdown. */
  lemma RenderInjective(p: Display, q: Display)
    requires p.Remaining? && q.Remaining?
    ensures Render(p) == Render(q) <==> p == q
  {
    if Render(p) == Render(q) {
      SplitUnit(p.days, q.days, AfterDays(p), AfterDays(q));
      AfterDaysInjective(p, q);
    }
  }

  /**
   * The field is styled as a success exactly when the rendered text is
   * "Unlocked!", that is, exactly when the display is `Unlocked`.
   */
  lemma SuccessStyleIffUnlocked(d: Display)
    ensures Render(d) == "Unlocked!" <==> d == Unlocked
  {
  }

  /** 90061 seconds is shown as one day, one hour, one minute and one second. */
  lemma RenderExample()
    ensures Decompose(90061) == Remaining(1, 1, 1, 1)
    ensures Render(Decompose(90061)) == "1d 1h 1m 1s"
  {
  }

  /**
   * The page's `timeRemaining` state together with the interval the effect on
   * `timeLeft` keeps running. `target` is the read value the running interval
   * closed over.
   */
  class CountdownState {
    var timeRemaining: Display
    var ticking: bool
    var target: int

    ghost predicate Valid()
      reads this
    {
      (ticking ==> target > 0) && (!ticking ==> timeRemaining == NoLock)
    }

    /** First render with state "" followed by the effect's first run. */
    constructor Mount(timeLeft: Option<int>)
      ensures Valid()
      ensures ticking == HasLock(timeLeft)
      ensures ticking ==> target == timeLeft.value && timeRemaining == Blank
    {
      timeRemaining := Blank;
      ticking := false;
      target := 0;
      new;
      TimeLeftChanged(timeLeft);
    }

    /**
     * The effect re-running on a new `timeLeft`: the old interval is cleared; a
     * positive read starts a new one and leaves the text alone until it fires,
     * any other read shows "No lock period" at once.
     */
    method TimeLeftChanged(timeLeft: Option<int>)
      modifies this
      ensures Valid()
      ensures ticking == HasLock(timeLeft)
      ensures ticking ==> target == timeLeft.value && timeRemaining == old(timeRemaining)
    {
      if HasLock(timeLeft) {
        ticking := true;
        target := timeLeft.value;
      } else {
        ticking := false;
        target := 0;
        timeRemaining := NoLock;
      }
    }

    /** The interval firing at wall-clock time `nowMillis`. */
    method Tick(nowMillis: int)
      requires Valid() && ticking
      modifies this`timeRemaining
      ensures Valid()
      ensures timeRemaining == TickDisplay(target, WholeSeconds(nowMillis))
      ensures timeRemaining == Shown(Some(target), nowMillis)
    {
      var remaining := target - nowMillis / 1000;
      if remaining > 0 {
        var days := remaining / SecondsPerDay;
        var hours := (remaining % SecondsPerDay) / SecondsPerHour;
        var minutes := (remaining % SecondsPerHour) / SecondsPerMinute;
        var seconds := remaining % SecondsPerMinute;
        timeRemaining := Remaining(days, hours, minutes, seconds);
      } else {
        timeRemaining := Unlocked;
      }
    }
  }
}
