/**
 * The meeting page: its elapsed-time clock text and the lifecycle of the one-second
 * counter (seeded from the join response, bumped on every interval tick, stopped when
 * the user leaves or the page unmounts).
 */
module MeetingRoom {
  import opened Wrappers
  import opened Decimal
  import opened Durations
  import Pages

  // ---------------------------------------------------------------------------
  // formatTime

  /** `n.toString().padStart(2, '0')`. */
  function Pad2(n: nat): (r: string)
    ensures AllDigits(r) && DigitsValue(r) == n
    ensures |r| >= 2 && (n < 100 ==> |r| == 2)
  {
    PaddedValue(n, 2);
    PadStart(NatToString(n), 2, '0')
  }

  /**
   * The "HH:MM:SS" shape: an hour field of at least two digits, then two-digit minute and
   * second fields, separated by colons.
   */
  predicate LongClockShape(r: string) {
    |r| >= 8 && r[|r| - 6] == ':' && r[|r| - 3] == ':'
    && AllDigits(r[..|r| - 6]) && AllDigits(r[|r| - 5..|r| - 3]) && AllDigits(r[|r| - 2..])
  }

  /** "HH:MM:SS" once the time reaches an hour, "MM:SS" before; every field at least two digits. */
  function FormatTime(seconds: nat): (r: string)
    ensures seconds < 3600 ==>
      |r| == 5 && r[2] == ':' && IsDigit(r[0]) && IsDigit(r[1]) && IsDigit(r[3]) && IsDigit(r[4])
    ensures seconds >= 3600 ==> LongClockShape(r) && (seconds >= 100 * 3600 ==> |r| >= 9)
  {
    var t := Split(seconds);
    if t.hours > 0 then
      HoursAtLeast(seconds, 100);
      LongClock(t.hours, t.minutes, t.seconds)
    else ShortClock(t.minutes, t.seconds)
  }

  /** "MM:SS". */
  function ShortClock(m: nat, s: nat): (r: string)
    requires m < 100 && s < 100
    ensures |r| == 5 && r[2] == ':' && IsDigit(r[0]) && IsDigit(r[1]) && IsDigit(r[3]) && IsDigit(r[4])
  {
    var ms, ss := Pad2(m), Pad2(s);
    ColonOfTwo(ms, ss);
    ms + ":" + ss
  }

  lemma ColonOfTwo(a: string, b: string)
    requires |a| == 2 && |b| == 2 && AllDigits(a) && AllDigits(b)
    ensures var r := a + ":" + b;
      |r| == 5 && r[2] == ':' && IsDigit(r[0]) && IsDigit(r[1]) && IsDigit(r[3]) && IsDigit(r[4])
  {
    var r := a + ":" + b;
    assert r[0] == a[0] && r[1] == a[1] && r[3] == b[0] && r[4] == b[1];
  }

  /** "HH:MM:SS"; the hour field is never cut short. */
  function LongClock(h: nat, m: nat, s: nat): (r: string)
    requires m < 100 && s < 100
    ensures LongClockShape(r)
    ensures h >= 100 ==> |r| >= 9
  {
    var hs, ms, ss := Pad2(h), Pad2(m), Pad2(s);
    assert h >= 100 ==> |hs| >= 3 by {
      if h >= 100 { NatToStringLong(h); }
    }
    ColonsOfThree(hs, ms, ss);
    hs + ":" + ms + ":" + ss
  }

  lemma ColonsOfThree(a: string, b: string, c: string)
    requires |a| >= 2 && |b| == 2 && |c| == 2
    requires AllDigits(a) && AllDigits(b) && AllDigits(c)
    ensures var r := a + ":" + b + ":" + c;
      |r| == |a| + 6 && LongClockShape(r)
  {
    var r := a + ":" + b + ":" + c;
    assert r[..|r| - 6] == a;
    assert r[|r| - 5..|r| - 3] == b;
    assert r[|r| - 2..] == c;
  }

  /** The digit runs of an "MM:SS" text are the two fields written. */
  lemma ShortClockNumbers(m: nat, s: nat)
    ensures Numbers(Pad2(m) + ":" + Pad2(s)) == [m, s]
  {
    NumbersOfTwo(Pad2(m), ":", Pad2(s));
  }

  /** The digit runs of an "HH:MM:SS" text are the three fields written. */
  lemma LongClockNumbers(h: nat, m: nat, s: nat)
    ensures Numbers(Pad2(h) + ":" + Pad2(m) + ":" + Pad2(s)) == [h, m, s]
  {
    NumbersOfThree(Pad2(h), ":", Pad2(m), Pad2(s));
  }

  /**
   * Reading the digit runs back out of the clock text gives the hour field exactly when
   * the time is at least an hour (never truncated, however many digits it has), and the
   * fields add back up to the time.
   */
  lemma FormatTimeRoundTrip(seconds: nat)
    ensures var t := Split(seconds);
      Numbers(FormatTime(seconds))
        == if seconds >= 3600 then [t.hours, t.minutes, t.seconds] else [t.minutes, t.seconds]
    ensures FieldsToSeconds(Numbers(FormatTime(seconds))) == seconds
  {
    var t := Split(seconds);
    if t.hours > 0 {
      LongClockNumbers(t.hours, t.minutes, t.seconds);
      assert FormatTime(seconds) == Pad2(t.hours) + ":" + Pad2(t.minutes) + ":" + Pad2(t.seconds);
      assert FieldsToSeconds([t.hours, t.minutes, t.seconds]) == Seconds(t);
    } else {
      ShortClockNumbers(t.minutes, t.seconds);
      assert FormatTime(seconds) == Pad2(t.minutes) + ":" + Pad2(t.seconds);
      assert FieldsToSeconds([t.minutes, t.seconds]) == Seconds(t);
    }
  }

  // ---------------------------------------------------------------------------
  // The page's counter lifecycle

  /** What the page asks of the outside world, in the order it asks. */
  datatype Effect =
    | JoinRequest(code: string)     // PUT meetings/join
    | StartInterval(id: nat)        // setInterval(..., 1000)
    | ClearInterval(id: nat)        // clearInterval(intervalRef.current)
    | Navigate(path: string)
    | LeaveRequest(code: string)    // PUT meetings/leave

  /** The parts of a join response the page uses; `participantDuration` may be absent. */
  datatype JoinResponse = JoinResponse(token: string, meetingTitle: string, participantDuration: Option<nat>)

  class MeetingPage {
    const code: string
    var token: Option<string>
    var meetingTitle: Option<string>
    var elapsedTime: nat
    /** `intervalRef.current`: the last interval started, kept even after it is cleared. */
    var intervalRef: Option<nat>
    /** The intervals started and not yet cleared; only these fire. */
    var activeIntervals: set<nat>
    var nextIntervalId: nat
    var effects: seq<Effect>

    ghost predicate Valid()
      reads this
    {
      && (forall id :: id in activeIntervals ==> id < nextIntervalId)
      && (intervalRef.Some? ==> intervalRef.value < nextIntervalId)
    }

    constructor (code: string)
      ensures Valid() && this.code == code
      ensures token == None && meetingTitle == None && elapsedTime == 0
      ensures intervalRef == None && activeIntervals == {} && effects == []
      ensures !Rendered()
    {
      this.code := code;
      token, meetingTitle, elapsedTime := None, None, 0;
      intervalRef, activeIntervals, nextIntervalId := None, {}, 0;
      effects := [];
    }

    /** The page is shown only once the join response has delivered the meeting. */
    predicate Rendered()
      reads this
    {
      meetingTitle.Some?
    }

    /**
     * The clock the header shows, `formatTime(elapsedTime)`: its numbers add back up to the
     * elapsed seconds.
     */
    method ClockText() returns (text: string)
      ensures text == FormatTime(elapsedTime)
      ensures FieldsToSeconds(Numbers(text)) == elapsedTime
    {
      FormatTimeRoundTrip(elapsedTime);
      text := FormatTime(elapsedTime);
    }

    /** `mounted`: sends the join request. */
    method Mount()
      modifies this`effects
      ensures effects == old(effects) + [JoinRequest(code)]
    {
      effects := effects + [JoinRequest(code)];
    }

    /**
     * The join response arrives: a falsy response changes nothing; otherwise the counter
     * is seeded with the participant's recorded duration (0 when absent) and a new
     * one-second interval is started and stored in the ref.
     */
    method OnJoinResponse(response: Option<JoinResponse>)
      requires Valid()
      modifies this
      ensures Valid()
      ensures response.None? ==> unchanged(this)
      ensures response.Some? ==> Rendered()
      ensures response.Some? ==>
        && token == Some(response.value.token)
        && meetingTitle == Some(response.value.meetingTitle)
        && elapsedTime == (match response.value.participantDuration case Some(d) => d case None => 0)
        && intervalRef.Some? && intervalRef.value !in old(activeIntervals)
        && activeIntervals == old(activeIntervals) + {intervalRef.value}
        && effects == old(effects) + [StartInterval(intervalRef.value)]
    {
      if response.Some? {
        var res := response.value;
        token := Some(res.token);
        meetingTitle := Some(res.meetingTitle);
        elapsedTime := match res.participantDuration case Some(d) => d case None => 0;
        var id := nextIntervalId;
        nextIntervalId := nextIntervalId + 1;
        intervalRef := Some(id);
        activeIntervals := activeIntervals + {id};
        effects := effects + [StartInterval(id)];
      }
    }

    /** Interval `id` fires: the counter goes up by exactly one, if that interval is still running. */
    method Tick(id: nat)
      modifies this`elapsedTime
      ensures elapsedTime == old(elapsedTime) + (if id in activeIntervals then 1 else 0)
      ensures elapsedTime >= old(elapsedTime)
    {
      if id in activeIntervals {
        elapsedTime := elapsedTime + 1;
      }
    }

    /** Stops the interval the ref holds, if any (the ref itself keeps its value). */
    method ClearStoredInterval()
      requires Valid()
      modifies this`activeIntervals, this`effects
      ensures Valid()
      ensures intervalRef.None? ==> activeIntervals == old(activeIntervals) && effects == old(effects)
      ensures intervalRef.Some? ==>
        && activeIntervals == old(activeIntervals) - {intervalRef.value}
        && effects == old(effects) + [ClearInterval(intervalRef.value)]
    {
      if intervalRef.Some? {
        activeIntervals := activeIntervals - {intervalRef.value};
        effects := effects + [ClearInterval(intervalRef.value)];
      }
    }

    /**
     * `leaveRoom`: clears the stored interval first, then navigates to the dashboard and
     * sends the leave request. Afterwards the stored interval no longer ticks.
     */
    method LeaveRoom()
      requires Valid()
      modifies this`activeIntervals, this`effects
      ensures Valid()
      ensures intervalRef.Some? ==> intervalRef.value !in activeIntervals
      ensures activeIntervals == old(activeIntervals) - (if intervalRef.Some? then {intervalRef.value} else {})
      ensures effects == old(effects)
        + (if intervalRef.Some? then [ClearInterval(intervalRef.value)] else [])
        + [Navigate(Pages.Dashboard), LeaveRequest(code)]
    {
      ClearStoredInterval();
      effects := effects + [Navigate(Pages.Dashboard), LeaveRequest(code)];
    }

    /** The unmount cleanup: clears the stored interval if one was set. */
    method Unmount()
      requires Valid()
      modifies this`activeIntervals, this`effects
      ensures Valid()
      ensures intervalRef.Some? ==> intervalRef.value !in activeIntervals
      ensures activeIntervals == old(activeIntervals) - (if intervalRef.Some? then {intervalRef.value} else {})
      ensures effects == old(effects) + (if intervalRef.Some? then [ClearInterval(intervalRef.value)] else [])
    {
      ClearStoredInterval();
    }
  }

  /**
   * One visit to a meeting: join with a recorded duration, two ticks, leave, and a late
   * tick of the cleared interval. The page is shown once joined; the effects are the join
   * request, the interval started and then cleared, the move to the dashboard and the leave
   * request, in that order; the counter shows the seed plus two and then stops.
   */
  method VisitEvents(code: string, seed: nat)
    returns (page: MeetingPage, shown: bool, trace: seq<Effect>, beforeLeave: nat, afterLeave: nat)
    ensures shown
    ensures |trace| == 5 && trace[0] == JoinRequest(code) && trace[1].StartInterval?
    ensures trace[2] == ClearInterval(trace[1].id) && trace[3] == Navigate(Pages.Dashboard)
    ensures trace[4] == LeaveRequest(code)
    ensures beforeLeave == seed + 2 == afterLeave == page.elapsedTime
  {
    page := new MeetingPage(code);
    page.Mount();
    page.OnJoinResponse(Some(JoinResponse("token", "Stand-up", Some(seed))));
    shown := page.Rendered();
    var id := page.intervalRef.value;
    page.Tick(id);
    page.Tick(id);
    beforeLeave := page.elapsedTime;
    page.LeaveRoom();
    trace := page.effects;
    assert trace == [JoinRequest(code), StartInterval(id), ClearInterval(id),
                     Navigate(Pages.Dashboard), LeaveRequest(code)];
    page.Tick(id);
    afterLeave := page.elapsedTime;
  }

  /** The same visit, ending with the header clock, which reads back as the final count. */
  method Visit(code: string, seed: nat) returns (afterLeave: nat, clock: string)
    ensures afterLeave == seed + 2
    ensures FieldsToSeconds(Numbers(clock)) == seed + 2
  {
    var page, shown, trace, beforeLeave;
    page, shown, trace, beforeLeave, afterLeave := VisitEvents(code, seed);
    clock := page.ClockText();
  }
}
