/**
 * The attendance report of the meeting-history page: each participant's attended
 * time as a percentage of the host's, the host lookup, and the duration texts.
 */
module Attendance {
  import opened Wrappers
  import opened Decimal
  import opened Durations

  datatype Participant = Participant(id: string, userId: string, username: string, durationInSecs: nat)

  /** A meeting as the report receives it; `userId` is the owning user, the host. */
  datatype Meeting = Meeting(id: string, title: string, userId: string, participants: seq<Participant>)

  function Min(a: nat, b: nat): nat {
    if a <= b then a else b
  }

  // ---------------------------------------------------------------------------
  // calculateAttendancePercentage

  /**
   * The participant's time, capped at the host's, as a percentage of the host's time,
   * rounded to the nearest integer with halves rounded up (`Math.round`); 0 when the
   * host's time is 0. Computed exactly on integers: round(100 m / h) = (200 m + h) div 2h.
   */
  function AttendancePercentage(participantDuration: nat, hostDuration: nat): (pct: nat)
    ensures hostDuration == 0 ==> pct == 0
    ensures hostDuration > 0 ==> pct <= 100
    ensures participantDuration >= hostDuration > 0 ==> pct == 100
    ensures hostDuration > 0 ==>
      var m, h := Min(participantDuration, hostDuration), hostDuration;
      2 * h * pct - h <= 200 * m < 2 * h * pct + h
  {
    if hostDuration == 0 then 0
    else
      var m, h := Min(participantDuration, hostDuration), hostDuration;
      var pct := (200 * m + h) / (2 * h);
      assert 200 * m + h == 2 * h * pct + (200 * m + h) % (2 * h);
      RoundedBounds(m, h, pct);
      pct
  }

  /** The arithmetic behind the bounds of `AttendancePercentage`. */
  lemma RoundedBounds(m: nat, h: nat, pct: nat)
    requires 0 < h && m <= h
    requires 2 * h * pct <= 200 * m + h < 2 * h * pct + 2 * h
    ensures pct <= 100 && (m == h ==> pct == 100)
  {
    if pct > 100 {
      MulMonotonic(2 * h, 101, pct);
      assert false;
    }
    if m == h && pct < 100 {
      MulMonotonic(2 * h, pct + 1, 100);
      assert false;
    }
  }

  /** For a fixed host time, more attended time never gives a lower percentage. */
  lemma {:induction false} PercentageMonotonic(p1: nat, p2: nat, hostDuration: nat)
    requires p1 <= p2
    ensures AttendancePercentage(p1, hostDuration) <= AttendancePercentage(p2, hostDuration)
  {
    if hostDuration > 0 {
      var h := hostDuration;
      var r1, r2 := AttendancePercentage(p1, h), AttendancePercentage(p2, h);
      RoundedOrder(h, Min(p1, h), Min(p2, h), r1, r2);
    }
  }

  /** Two half-up roundings over the same denominator keep the order of their numerators. */
  lemma RoundedOrder(h: nat, m1: nat, m2: nat, r1: nat, r2: nat)
    requires 0 < h && m1 <= m2
    requires 2 * h * r1 <= 200 * m1 + h && 200 * m2 < 2 * h * r2 + h
    ensures r1 <= r2
  {
    if r1 > r2 {
      MulMonotonic(2 * h, r2 + 1, r1);
    }
  }

  lemma PercentageExamples()
    ensures AttendancePercentage(300, 600) == 50
    ensures AttendancePercentage(120, 0) == 0
    ensures AttendancePercentage(150, 100) == 100
  {
  }

  /** A percentage below 50 means the capped time is under 49.5% of the host's (or there is no host time). */
  lemma {:induction false} LowAttendanceMeaning(participantDuration: nat, hostDuration: nat)
    ensures AttendancePercentage(participantDuration, hostDuration) < 50
        <==> hostDuration == 0 || 200 * Min(participantDuration, hostDuration) < 99 * hostDuration
  {
    if hostDuration > 0 {
      var h, m := hostDuration, Min(participantDuration, hostDuration);
      var pct := AttendancePercentage(participantDuration, h);
      if pct < 50 {
        MulMonotonic(2 * h, pct, 49);
      } else {
        MulMonotonic(2 * h, 50, pct);
      }
    }
  }

  // ---------------------------------------------------------------------------
  // getHostParticipant and the host's time

  /** `participants.find(p => p.userId === hostId)`: the first participant row of the host. */
  function FindHost(participants: seq<Participant>, hostId: string): (host: Option<Participant>)
    ensures host.None? <==> forall i :: 0 <= i < |participants| ==> participants[i].userId != hostId
    ensures host.Some? ==> host.value.userId == hostId
    ensures host.Some? ==> exists i :: (0 <= i < |participants| && participants[i] == host.value
      && forall j :: 0 <= j < i ==> participants[j].userId != hostId)
    decreases |participants|
  {
    if participants == [] then None
    else if participants[0].userId == hostId then Some(participants[0])
    else
      var host := FindHost(participants[1..], hostId);
      assert host.Some? ==> exists i :: (1 <= i < |participants| && participants[i] == host.value
        && forall j :: 0 <= j < i ==> participants[j].userId != hostId) by {
        if host.Some? {
          var i :| 0 <= i < |participants[1..]| && participants[1..][i] == host.value
            && forall j :: 0 <= j < i ==> participants[1..][j].userId != hostId;
          assert participants[i + 1] == host.value;
          forall j | 0 <= j < i + 1 ensures participants[j].userId != hostId {
            if j > 0 { assert participants[j] == participants[1..][j - 1]; }
          }
        }
      }
      host
  }

  /** `getHostParticipant`: the first participant row whose user is the meeting's owner. */
  function GetHostParticipant(meeting: Meeting): (host: Option<Participant>)
    ensures host.Some? ==> host.value in meeting.participants && host.value.userId == meeting.userId
    ensures host.None? <==> forall p :: p in meeting.participants ==> p.userId != meeting.userId
  {
    FindHost(meeting.participants, meeting.userId)
  }

  /** `hostParticipant?.durationInSecs || 0`. */
  function HostDuration(meeting: Meeting): (d: nat)
    ensures GetHostParticipant(meeting).None? ==> d == 0
    ensures GetHostParticipant(meeting).Some? ==> d == GetHostParticipant(meeting).value.durationInSecs
  {
    match GetHostParticipant(meeting)
    case None => 0
    case Some(host) => host.durationInSecs
  }

  // ---------------------------------------------------------------------------
  // formatDuration

  /** "1h 2m 3s", or "2m 3s" when the duration is under an hour. */
  function FormatDuration(seconds: nat): (text: string)
    ensures |text| >= 5 && text[|text| - 1] == 's'
  {
    var t := Split(seconds);
    if t.hours > 0 then
      NatToString(t.hours) + "h " + NatToString(t.minutes) + "m " + NatToString(t.seconds) + "s"
    else
      NatToString(t.minutes) + "m " + NatToString(t.seconds) + "s"
  }

  /** The numbers read back from an "Mm Ss" text are the two fields written. */
  lemma MinutesTextNumbers(m: nat, s: nat)
    ensures Numbers(NatToString(m) + "m " + NatToString(s) + "s") == [m, s]
  {
    NatToStringRoundTrip(m);
    NatToStringRoundTrip(s);
    NumbersOfTwoFields(NatToString(m), "m ", NatToString(s), "s");
  }

  /** The numbers read back from an "Hh Mm Ss" text are the three fields written. */
  lemma HoursTextNumbers(h: nat, m: nat, s: nat)
    ensures Numbers(NatToString(h) + "h " + NatToString(m) + "m " + NatToString(s) + "s") == [h, m, s]
  {
    var hs, ms, ss := NatToString(h), NatToString(m), NatToString(s);
    var tail := ms + "m " + ss + "s";
    MinutesTextNumbers(m, s);
    NatToStringRoundTrip(h);
    NumbersOfField(hs, "h ", tail);
    calc {
      hs + "h " + ms + "m " + ss + "s";
      { SeqAssoc5(hs + "h ", ms, "m ", ss, "s"); }
      hs + "h " + tail;
    }
  }

  lemma SeqAssoc5(a: string, b: string, c: string, d: string, e: string)
    ensures a + b + c + d + e == a + (b + c + d + e)
  {
  }

  /**
   * Reading the numbers back out of the text gives the hour field exactly when the
   * duration is at least an hour, and the fields add back up to the duration.
   */
  lemma FormatDurationRoundTrip(seconds: nat)
    ensures var t := Split(seconds);
      Numbers(FormatDuration(seconds))
        == if seconds >= 3600 then [t.hours, t.minutes, t.seconds] else [t.minutes, t.seconds]
    ensures FieldsToSeconds(Numbers(FormatDuration(seconds))) == seconds
  {
    var t := Split(seconds);
    if t.hours > 0 {
      HoursTextNumbers(t.hours, t.minutes, t.seconds);
    } else {
      MinutesTextNumbers(t.minutes, t.seconds);
    }
  }

  /** The letter 'h' appears in the text exactly when the duration has a whole hour. */
  lemma {:induction false} HourShownIffHours(seconds: nat)
    ensures 'h' in FormatDuration(seconds) <==> Split(seconds).hours > 0
  {
    var t := Split(seconds);
    var m, s := NatToString(t.minutes), NatToString(t.seconds);
    var tail := m + "m " + s + "s";
    assert forall i :: 0 <= i < |m| ==> m[i] != 'h';
    assert forall i :: 0 <= i < |s| ==> s[i] != 'h';
    assert 'h' !in tail by {
      forall i | 0 <= i < |tail| ensures tail[i] != 'h' {
        if i < |m| { assert tail[i] == m[i]; }
        else if i < |m| + 2 { }
        else if i < |m| + 2 + |s| { assert tail[i] == s[i - |m| - 2]; }
      }
    }
    if t.hours > 0 {
      var h := NatToString(t.hours);
      assert FormatDuration(seconds)[|h|] == 'h';
    }
  }

  // ---------------------------------------------------------------------------
  // The attendance list

  /** One participant row of the list. */
  datatype Row = Row(
    participant: Participant,
    percentage: nat,
    isLowAttendance: bool,
    isHost: bool,
    barWidth: nat,
    durationText: string)

  /** What the list shows for a selected meeting; no rows means "No participants yet". */
  datatype View = View(title: string, hostDurationText: string, rows: seq<Row>)

  /** The error the page raises by reading a property of `null`. */
  datatype Error = TypeError

  /** One `participants.map` step: the row the component renders for `participant`. */
  function MakeRow(meeting: Meeting, participant: Participant, hostDuration: nat): (row: Row)
    ensures row.participant == participant
    ensures row.percentage == AttendancePercentage(participant.durationInSecs, hostDuration) <= 100
    ensures row.barWidth == row.percentage
    ensures row.isLowAttendance <==> row.percentage < 50
    ensures row.isHost <==> participant.userId == meeting.userId
    ensures row.durationText == FormatDuration(participant.durationInSecs)
  {
    var pct := AttendancePercentage(participant.durationInSecs, hostDuration);
    Row(participant, pct, pct < 50, participant.userId == meeting.userId,
        if pct <= 100 then pct else 100, FormatDuration(participant.durationInSecs))
  }

  /** The participant rows, in the order of `meeting.participants`, all scored against the host's time. */
  function Rows(meeting: Meeting): (rows: seq<Row>)
    ensures |rows| == |meeting.participants|
    ensures forall i :: 0 <= i < |rows| ==>
      rows[i].participant == meeting.participants[i]
      && rows[i].percentage == AttendancePercentage(meeting.participants[i].durationInSecs, HostDuration(meeting))
      && rows[i].percentage <= 100
      && rows[i].barWidth == rows[i].percentage
      && (rows[i].isLowAttendance <==> rows[i].percentage < 50)
      && (rows[i].isHost <==> meeting.participants[i].userId == meeting.userId)
      && rows[i].durationText == FormatDuration(meeting.participants[i].durationInSecs)
  {
    var hostDuration := HostDuration(meeting);
    seq(|meeting.participants|, i requires 0 <= i < |meeting.participants| =>
      MakeRow(meeting, meeting.participants[i], hostDuration))
  }

  /**
   * `AttendanceList` as written: the host lookup reads `meeting.participants` before
   * the `if (!meeting) return null` guard, so a `null` meeting raises a TypeError.
   */
  function AttendanceListAsWritten(meeting: Option<Meeting>): (r: Result<Option<View>, Error>)
    ensures r.Failure? <==> meeting.None?
    ensures r.Success? ==>
      r.value.Some? && r.value.value.title == meeting.value.title
      && r.value.value.hostDurationText == FormatDuration(HostDuration(meeting.value))
      && r.value.value.rows == Rows(meeting.value)
  {
    match meeting
    case None => Failure(TypeError)
    case Some(m) => Success(Some(View(m.title, FormatDuration(HostDuration(m)), Rows(m))))
  }

  /** `AttendanceList` with the guard applied first: no meeting selected renders nothing. */
  function AttendanceList(meeting: Option<Meeting>): (view: Option<View>)
    ensures meeting.None? <==> view.None?
    ensures meeting.Some? ==> AttendanceListAsWritten(meeting) == Success(view)
  {
    match meeting
    case None => None
    case Some(m) => Some(View(m.title, FormatDuration(HostDuration(m)), Rows(m)))
  }

  /** The page's initial selection is `null`; rendering the list for it throws. */
  lemma NullMeetingThrows()
    ensures AttendanceListAsWritten(None).Failure?
    ensures AttendanceList(None) == None
  {
  }

  // ---------------------------------------------------------------------------
  // Properties of the report

  /** Without a host row, the host's time is 0 and so every participant is at 0% and low. */
  lemma NoHostAllZero(meeting: Meeting)
    requires forall p :: p in meeting.participants ==> p.userId != meeting.userId
    ensures HostDuration(meeting) == 0
    ensures forall r :: r in Rows(meeting) ==> r.percentage == 0 && r.isLowAttendance && !r.isHost
  {
    var rows := Rows(meeting);
    forall r | r in rows ensures r.percentage == 0 && r.isLowAttendance && !r.isHost {
      var i :| 0 <= i < |rows| && rows[i] == r;
      assert meeting.participants[i] in meeting.participants;
    }
  }

  /**
   * At most one participant row per user in a meeting: the compound unique key
   * (userId, meetingId) of MeetingParticipant.
   */
  ghost predicate UniqueUsers(meeting: Meeting) {
    forall i, j :: 0 <= i < j < |meeting.participants| ==>
      meeting.participants[i].userId != meeting.participants[j].userId
  }

  /** With one row per user, the host's own row scores 100% whenever the host's time is positive. */
  lemma HostRowScoresFull(meeting: Meeting, i: nat)
    requires UniqueUsers(meeting)
    requires i < |meeting.participants| && meeting.participants[i].userId == meeting.userId
    requires HostDuration(meeting) > 0
    ensures Rows(meeting)[i].isHost && Rows(meeting)[i].percentage == 100
  {
    var ps := meeting.participants;
    var host := GetHostParticipant(meeting);
    var k :| 0 <= k < |ps| && ps[k] == host.value;
    assert k == i;
  }
}
