/** The home screen's countdown and escalation logic (ContentView.swift). The
    asynchronous hops that other events can interleave with (the delivery of an
    `onChange`, a second of `Task.sleep`, the three-second delayed timeout) are
    explicit event methods. The rest (the `Task` that resets the detector after
    "I Am Okay.", the `Task` around `notifyNotOkay()`, and the awaited alert with
    its `MainActor.run` tail) are folded into the event that issues them. */
module Countdown {
  import opened Base
  import opened Text
  import opened AppStore

  /** `total`, the configured countdown in seconds: `max(0, mins * 60 + secs)`. It is
      never negative and equals the configured sum whenever that is not negative. */
  function Total(mins: int, secs: int): (t: nat)
    ensures mins * 60 + secs >= 0 ==> t == mins * 60 + secs
    ensures mins * 60 + secs < 0 ==> t == 0
  {
    if 0 >= mins * 60 + secs then 0 else mins * 60 + secs
  }

  /** Swift's `Int` division, which truncates toward zero. */
  function Quot(a: int, b: int): int
    requires b > 0
  {
    if a >= 0 then a / b else -((-a) / b)
  }

  /** Swift's `%`, whose result takes the sign of the dividend. */
  function Rem(a: int, b: int): int
    requires b > 0
  {
    a - b * Quot(a, b)
  }

  /** `fmt(v)`: `String(format: "%d:%02d", v / 60, v % 60)`. */
  function Fmt(v: int): (r: string)
    ensures ':' in r
    ensures v >= 0 ==> |r| >= 4 && r[|r| - 3] == ':'
  {
    var m := DecimalString(Quot(v, 60));
    assert (m + ":" + Pad2(Rem(v, 60)))[|m|] == ':';
    m + ":" + Pad2(Rem(v, 60))
  }

  /** Reads a "minutes:seconds" string back into seconds. */
  function ClockValue(s: string): Option<int> {
    var k := IndexOf(s, ':');
    if k == |s| then None else Some(DigitsValue(s[..k]) * 60 + DigitsValue(s[k + 1..]))
  }

  /** For a count that is not negative, `fmt` writes the whole minutes, a colon and
      exactly two digits of seconds, and those seconds are below 60. */
  lemma FmtShape(v: nat)
    ensures var m := Digits(v / 60); var s := Fmt(v);
      |s| == |m| + 3 && s[..|m|] == m && s[|m|] == ':' &&
      IsDigit(s[|m| + 1]) && IsDigit(s[|m| + 2]) &&
      DigitsValue(s[|m| + 1..]) == v % 60 < 60
  {
    var m := Digits(v / 60);
    var p := Pad2(v % 60);
    assert Quot(v, 60) == v / 60 && Rem(v, 60) == v % 60;
    var s := m + ":" + p;
    assert Fmt(v) == s;
    assert s[..|m|] == m && s[|m| + 1..] == p;
    assert s[|m| + 1] == p[0] && s[|m| + 2] == p[1];
  }

  /** For a count that is not negative, what `fmt` displays reads back as the count:
      minutes times sixty plus seconds. */
  lemma FmtRoundTrip(v: nat)
    ensures ClockValue(Fmt(v)) == Some(v)
  {
    FmtShape(v);
    var m := Digits(v / 60);
    var s := Fmt(v);
    var k := IndexOf(s, ':');
    assert k == |m|;
    DigitsRoundTrip(v / 60);
  }

  /** Every field of the screen, for stating what an event leaves unchanged. */
  datatype Screen = Screen(
    mins: int, secs: int, remain: int, running: bool, notified: bool, showImmediate: bool,
    isRed: bool, seenRed: bool, ticking: bool, delays: nat, alerts: nat)

  /** The screen fields after notifyTimeout: escalation recorded, countdown stopped,
      detector cleared, immediate banner hidden, one more local alert. */
  function Escalated(v: Screen): Screen {
    v.(notified := true, running := false, alerts := v.alerts + 1, isRed := false, showImmediate := false)
  }

  class Controller {
    /** The stored countdown setting. */
    var mins: int
    var secs: int
    var remain: int
    var running: bool
    var notified: bool
    var showImmediate: bool
    /** The fall detector's published flag. */
    var isRed: bool
    /** The value of the flag that the `onChange` handler last saw. */
    var seenRed: bool
    /** A tick() loop is alive. */
    var ticking: bool
    /** Pending three-second delayed timeouts of the zero-length countdown. */
    var delays: nat
    /** Local alerts requested from the emergency notifier. */
    var alerts: nat
    const app: AppData

    /** The countdown never goes below zero or above the configured total, and a
        running countdown has a live tick loop and has not escalated yet. */
    ghost predicate Valid()
      reads this, app
    {
      app.Valid() && 0 <= remain <= Total(mins, secs) && (running ==> ticking && !notified)
    }

    function View(): Screen
      reads this
    {
      Screen(mins, secs, remain, running, notified, showImmediate, isRed, seenRed, ticking, delays, alerts)
    }

    /** The screen as it first appears, with the detector idle. */
    constructor (app: AppData, mins: int, secs: int)
      requires app.Valid()
      ensures Valid() && this.app == app
      ensures View() == Screen(mins, secs, 0, false, false, false, false, false, false, 0, 0)
    {
      this.app := app;
      this.mins, this.secs := mins, secs;
      remain, running, notified, showImmediate := 0, false, false, false;
      isRed, seenRed, ticking := false, false, false;
      delays, alerts := 0, 0;
    }

    /** start(): the countdown is reset to the total, runs exactly when the total is
        positive, has not escalated, and a tick loop is started when it runs. */
    method Start()
      requires app.Valid()
      modifies this
      ensures Valid()
      ensures remain == Total(mins, secs) && (running <==> remain > 0) && !notified
      ensures View() == old(View()).(remain := Total(mins, secs), running := Total(mins, secs) > 0,
        notified := false, ticking := old(ticking) || Total(mins, secs) > 0)
    {
      remain := Total(mins, secs);
      running := Total(mins, secs) > 0;
      notified := false;
      if running {
        ticking := true;
      }
    }

    /** The fall detector raises or lowers its flag by itself. */
    method SetDetector(red: bool)
      requires Valid()
      modifies this
      ensures Valid()
      ensures View() == old(View()).(isRed := red)
    {
      isRed := red;
    }

    /** SwiftUI delivers a change of the detector flag to `onChange(of: fd.isRed)`.
        A raise shows the immediate banner and schedules the delayed timeout when the
        total is zero, then starts the countdown; a drop stops it, clears the
        escalation flag, restores the full count and hides the banner. */
    method DetectorChanged()
      requires Valid()
      modifies this
      ensures Valid()
      ensures old(isRed == seenRed) ==> View() == old(View())
      ensures old(isRed && !seenRed) ==> View() == old(View()).(
        seenRed := true, showImmediate := Total(mins, secs) == 0,
        delays := old(delays) + (if Total(mins, secs) == 0 then 1 else 0),
        remain := Total(mins, secs), running := Total(mins, secs) > 0, notified := false,
        ticking := old(ticking) || Total(mins, secs) > 0)
      ensures old(!isRed && seenRed) ==> View() == old(View()).(
        seenRed := false, running := false, notified := false, remain := Total(mins, secs),
        showImmediate := false)
    {
      if isRed == seenRed {
        return;
      }
      seenRed := isRed;
      if isRed {
        if Total(mins, secs) == 0 {
          showImmediate := true;
          delays := delays + 1;
        } else {
          showImmediate := false;
        }
        Start();
      } else {
        running := false;
        notified := false;
        remain := Total(mins, secs);
        showImmediate := false;
      }
    }

    /** notifyTimeout(): exactly one history record, one email decision and one local
        alert; then escalated, stopped, detector cleared and banner hidden. */
    method NotifyTimeout(id: Uuid, now: Date)
      requires Valid()
      modifies this, app
      ensures Valid()
      ensures View() == Escalated(old(View()))
      ensures app.State() == AfterTimeout(old(app.State()), id, now)
    {
      ghost var before, screen := app.State(), View();
      app.LogFallOnTimeout(id, now);
      ghost var logged := app.State();
      assert logged == before.(hist := before.hist + [TimeoutRecord(id, now, before.lastg, before.thrg)]);
      assert EmailsFor(logged) == EmailsFor(before);
      app.SendEmailOnTimeout();
      assert app.State() == logged.(outbox := logged.outbox + EmailsFor(logged));
      notified := true;
      running := false;
      alerts := alerts + 1;
      isRed := false;
      showImmediate := false;
      assert View() == screen.(notified := true, running := false, alerts := screen.alerts + 1,
        isRed := false, showImmediate := false);
    }

    /** "I Am Okay.": the countdown stops without escalating and the detector is
        cleared; nothing is logged, mailed or alerted. */
    method Okay()
      requires Valid()
      modifies this
      ensures Valid()
      ensures View() == old(View()).(running := false, notified := false, isRed := false)
      ensures app.State() == old(app.State())
    {
      running := false;
      notified := false;
      isRed := false;
    }

    /** "I Am Not Okay." (notifyNotOkay): escalated and stopped, one local alert, the
        detector cleared; no history record and no email. */
    method NotOkay()
      requires Valid()
      modifies this
      ensures Valid()
      ensures View() == old(View()).(notified := true, running := false, alerts := old(alerts) + 1, isRed := false)
      ensures app.State() == old(app.State())
    {
      notified := true;
      running := false;
      alerts := alerts + 1;
      isRed := false;
    }

    /** One whole second of the tick() loop: after the sleep, a stopped countdown
        leaves the loop; a running one loses one second (never below zero), and when
        it reaches zero the loop ends and escalates. */
    method ElapseSecond(id: Uuid, now: Date)
      requires Valid()
      modifies this, app
      ensures Valid()
      ensures old(remain) - 1 <= remain <= old(remain)
      ensures !old(ticking) ==> View() == old(View()) && app.State() == old(app.State())
      ensures old(ticking) && !old(running) ==>
        View() == old(View()).(ticking := false) && app.State() == old(app.State())
      ensures old(ticking) && old(running) && old(remain) > 1 ==>
        View() == old(View()).(remain := old(remain) - 1) && app.State() == old(app.State())
      ensures old(ticking) && old(running) && old(remain) <= 1 ==>
        View() == Escalated(old(View()).(remain := 0, ticking := false)) &&
        app.State() == AfterTimeout(old(app.State()), id, now)
    {
      if ticking {
        if running {
          remain := if remain - 1 > 0 then remain - 1 else 0;
        }
        if !running || remain == 0 {
          if running && remain == 0 && !notified {
            NotifyTimeout(id, now);
          }
          ticking := false;
        }
      }
    }

    /** tick() run to its end with no other event in between: a running countdown
        takes `remain` seconds (one when it is already zero) and escalates exactly
        once; a stopped one just ends its loop. */
    method Tick(id: Uuid, now: Date) returns (seconds: nat)
      requires Valid() && ticking
      modifies this, app
      ensures Valid() && !ticking
      ensures old(running) ==> seconds == (if old(remain) == 0 then 1 else old(remain))
      ensures old(running) ==>
        View() == Escalated(old(View()).(remain := 0, ticking := false)) &&
        app.State() == AfterTimeout(old(app.State()), id, now)
      ensures !old(running) ==>
        seconds == 1 && View() == old(View()).(ticking := false) && app.State() == old(app.State())
    {
      seconds := 0;
      while ticking
        invariant Valid()
        invariant ticking ==>
          running == old(running) && View() == old(View()).(remain := remain) &&
          app.State() == old(app.State())
        invariant ticking && old(running) ==> remain + seconds == old(remain) && (old(remain) > 0 ==> remain > 0)
        invariant ticking && !old(running) ==> seconds == 0 && remain == old(remain)
        invariant !ticking && old(running) ==>
          seconds == (if old(remain) == 0 then 1 else old(remain)) &&
          View() == Escalated(old(View()).(remain := 0, ticking := false)) &&
          app.State() == AfterTimeout(old(app.State()), id, now)
        invariant !ticking && !old(running) ==>
          seconds == 1 && View() == old(View()).(ticking := false) && app.State() == old(app.State())
        decreases remain + (if ticking then 1 else 0)
      {
        ghost var prev := View();
        ElapseSecond(id, now);
        seconds := seconds + 1;
        assert prev.(remain := 0, ticking := false) == old(View()).(remain := 0, ticking := false);
      }
    }

    /** The three seconds after a zero-length countdown's banner have passed:
        notifyTimeout runs without checking any flag. */
    method DelayElapsed(id: Uuid, now: Date)
      requires Valid() && delays > 0
      modifies this, app
      ensures Valid()
      ensures View() == Escalated(old(View())).(delays := old(delays) - 1)
      ensures app.State() == AfterTimeout(old(app.State()), id, now)
    {
      delays := delays - 1;
      ghost var screen := View();
      NotifyTimeout(id, now);
      assert View() == screen.(notified := true, running := false, alerts := screen.alerts + 1,
        isRed := false, showImmediate := false);
    }

    /** The stored setting changes; `onChange(of: total)` restarts a countdown on a
        raised detector and otherwise resets the count to the new total. */
    method SetTimer(m: int, s: int)
      requires Valid()
      modifies this
      ensures Valid() && mins == m && secs == s
      ensures Total(m, s) == Total(old(mins), old(secs)) ==> View() == old(View()).(mins := m, secs := s)
      ensures Total(m, s) != Total(old(mins), old(secs)) && !old(isRed) ==>
        View() == old(View()).(mins := m, secs := s, remain := Total(m, s))
      ensures Total(m, s) != Total(old(mins), old(secs)) && old(isRed) ==>
        View() == old(View()).(mins := m, secs := s, remain := Total(m, s), running := Total(m, s) > 0,
          notified := false, ticking := old(ticking) || Total(m, s) > 0)
    {
      var before := Total(mins, secs);
      mins, secs := m, s;
      if Total(mins, secs) != before {
        if isRed {
          Start();
        } else {
          remain := Total(mins, secs);
        }
      }
    }

    /** `onAppear`: a detector that is already raised starts the countdown. */
    method Appear()
      requires Valid()
      modifies this
      ensures Valid()
      ensures !old(isRed) ==> View() == old(View())
      ensures old(isRed) ==> View() == old(View()).(remain := Total(mins, secs), running := Total(mins, secs) > 0,
        notified := false, ticking := old(ticking) || Total(mins, secs) > 0)
    {
      if isRed {
        Start();
      }
    }
  }

  /** A ten-second countdown that nobody cancels: after ten seconds exactly one
      record is logged, the email decision is taken once and one alert is raised. */
  method TimeoutScenario(app: AppData, id: Uuid, now: Date) returns (c: Controller, seconds: nat)
    requires app.Valid()
    modifies app
    ensures c.Valid() && c.app == app
    ensures seconds == 10 && c.notified && !c.running && c.alerts == 1
    ensures app.State() == AfterTimeout(old(app.State()), id, now)
  {
    c := new Controller(app, 0, 10);
    c.SetDetector(true);
    c.DetectorChanged();
    seconds := c.Tick(id, now);
  }

  /** The same countdown cancelled with four seconds left: the count returns to ten,
      the loop ends at its next wake-up, and nothing is logged, mailed or alerted. */
  method CancelScenario(app: AppData, id: Uuid, now: Date) returns (c: Controller)
    requires app.Valid()
    modifies app
    ensures c.Valid() && c.app == app
    ensures c.remain == 10 && !c.running && !c.notified && !c.ticking && c.alerts == 0
    ensures app.State() == old(app.State())
  {
    c := new Controller(app, 0, 10);
    c.SetDetector(true);
    c.DetectorChanged();
    var k := 0;
    while k < 6
      invariant 0 <= k <= 6 && c.Valid() && c.app == app && fresh(c)
      invariant c.mins == 0 && c.secs == 10 && c.running && c.ticking && c.remain == 10 - k && c.alerts == 0 && c.isRed && c.seenRed
      invariant app.State() == old(app.State())
    {
      c.ElapseSecond(id, now);
      k := k + 1;
    }
    assert c.remain == 4;
    c.Okay();
    c.DetectorChanged();
    c.ElapseSecond(id, now);
  }

  /** A zero-length countdown: raising the detector shows the banner without any
      countdown, and the delayed timeout then escalates by itself. */
  method ImmediateScenario(app: AppData, id: Uuid, now: Date) returns (c: Controller)
    requires app.Valid()
    modifies app
    ensures c.Valid() && c.app == app
    ensures c.notified && !c.running && !c.showImmediate && c.alerts == 1 && c.delays == 0
    ensures app.State() == AfterTimeout(old(app.State()), id, now)
  {
    c := new Controller(app, 0, 0);
    c.SetDetector(true);
    c.DetectorChanged();
    assert c.showImmediate && !c.running && c.delays == 1;
    c.DelayElapsed(id, now);
  }
}
