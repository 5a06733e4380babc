# Meeting app web client: verified model of its rules

This project models the rules in the web client of a video-meeting application. The client
runs meetings on a LiveKit media server. The model is written in Dafny and covers:

- **Attendance report** (`Attendance`). A participant's attendance is a percentage of the
  host's time: clamped, rounded half-up, and 0 when the host has no recorded time. The
  host's row is found by user id. Durations are shown as `Hh Mm Ss` text. Each row has a
  low-attendance flag and a bar width.
- **Meeting room** (`MeetingRoom`). The header clock text is `MM:SS` or `HH:MM:SS`. The
  page itself is a class. It seeds an elapsed-time counter from the join response and
  starts a one-second interval that adds one per tick. The interval is cleared on leave and
  on unmount, and leaving navigates to the dashboard and sends the leave request.
- **Track references** (`TrackRefs`). A track reference either points to a publication or
  is a placeholder. This module holds the classifiers, the id scheme
  `identity_source_sid` / `identity_source_placeholder`, equality, pin membership and the
  placeholder-replacement test.
- **Control bar** (`ControlBar`). Sources map to protocol codes. Which buttons show depends
  on the caller's controls and the local participant's permissions, and the visible
  controls are built field by field. The module also covers the icon/text variation, the
  button order and the labels.
- **Conference view** (`Conference`). It selects the screen-share tracks and the carousel
  tracks. The screen-share auto-focus effect pins a new screen share once and clears the
  pin when that share goes away. A focused placeholder is upgraded to its published track.
  The module also holds the chat widget state.
- **Routes** (`Pages`): the static routes and the meeting route `/meeting/<code>`.

Shared pieces are decimal text and its reading back (`Decimal`), the hours/minutes/seconds
split (`Durations`), and `Option`/`Result` (`Wrappers`). JavaScript `undefined` and `null`
are `None`. Durations and counters are naturals, written as their exact decimal digits,
which is how JavaScript writes the safe integers (magnitude below 2^53). A track id may also
come from any other JavaScript number (a fraction, `NaN`, an infinity, a larger integer),
which is carried with the engine's text for it. A text of numbers is read back with
`Decimal.Numbers`, the values of its maximal digit runs, so the round-trip lemmas state that
the text carries exactly the fields of the split.

## Model

| member | source | states |
|---|---|---|
| Pages.Meeting | apps/web/src/constants/pages.ts:5 | the meeting path is "/meeting/" followed by the code, nothing more |
| Pages.MeetingCode | apps/web/src/constants/pages.ts:5 | a path read as a meeting path gives a code whose meeting path is that path |
| Pages.MeetingCodeRoundTrip | apps/web/src/constants/pages.ts:5 | reading the code back from `Meeting(code)` gives `code` |
| Pages.MeetingInjective | apps/web/src/constants/pages.ts:5 | different codes give different meeting paths |
| Pages.MeetingIsNotStatic | apps/web/src/constants/pages.ts:2-6 | no meeting path equals `/`, `/sign-in`, `/dashboard` or `/meeting-history`; character 8 is '/' in a meeting path and '-' in `/meeting-history`; none of the static routes reads as a meeting path |
| Pages.StaticRoutesDistinct | apps/web/src/constants/pages.ts:2-6 | the four static routes are pairwise distinct |
| Decimal.NatToString | apps/web/src/pages/MeetingHistory/MeetingHistory.tsx:130 | a number's text is a non-empty run of digits with no leading zero (except "0" itself); it has one digit iff the number is under 10 and at most two under 100 |
| Decimal.NatToStringRoundTrip | apps/web/src/pages/MeetingHistory/MeetingHistory.tsx:130 | the digits of a number's text read back as the number |
| Decimal.PadStart | apps/web/src/pages/Meeting/Meeting.tsx:41 | `padStart` gives length max(width, \|s\|), ends with `s`, and is filled in front with the fill character |
| Decimal.PaddedValue | apps/web/src/pages/Meeting/Meeting.tsx:41 | zero-padding a number's text keeps its value and keeps it all digits |
| Durations.Split | apps/web/src/pages/MeetingHistory/MeetingHistory.tsx:125-127 | the fields add back to the total (h·3600 + m·60 + s), minutes and seconds are under 60, and hours are positive iff the total is at least 3600 |
| Durations.SplitUnique | apps/web/src/pages/MeetingHistory/MeetingHistory.tsx:125-127 | every h/m/s triple with m, s < 60 is the split of its own total, so the split is the only such decomposition |
| Attendance.AttendancePercentage | apps/web/src/pages/MeetingHistory/MeetingHistory.tsx:115-118 | 0 when the host time is 0; at most 100 otherwise; exactly 100 when participant ≥ host > 0; and within half a point of 100·min(p,h)/h, rounding a half up |
| Attendance.PercentageMonotonic | apps/web/src/pages/MeetingHistory/MeetingHistory.tsx:117 | for a fixed host time, more participant time never gives a lower percentage |
| Attendance.PercentageExamples | apps/web/src/pages/MeetingHistory/MeetingHistory.tsx:117 | 300 of 600 seconds is 50%; anything of 0 is 0%; 150 of 100 is 100% |
| Attendance.LowAttendanceMeaning | apps/web/src/pages/MeetingHistory/MeetingHistory.tsx:159 | a row is low (< 50%) iff the host time is 0 or 200·min(p,h) < 99·h |
| Attendance.FindHost | apps/web/src/pages/MeetingHistory/MeetingHistory.tsx:120-122 | no result iff no participant has the owner's user id; a result has that user id and is the first such participant |
| Attendance.HostDuration | apps/web/src/pages/MeetingHistory/MeetingHistory.tsx:135-136 | the host's recorded seconds, or 0 without a host row |
| Attendance.MinutesTextNumbers | apps/web/src/pages/MeetingHistory/MeetingHistory.tsx:132 | the text "Mm Ss" reads back as exactly [M, S] |
| Attendance.HoursTextNumbers | apps/web/src/pages/MeetingHistory/MeetingHistory.tsx:130 | the text "Hh Mm Ss" reads back as exactly [H, M, S] |
| Attendance.FormatDurationRoundTrip | apps/web/src/pages/MeetingHistory/MeetingHistory.tsx:124-133 | the duration text carries [h, m, s] from one hour on and [m, s] below it, and those fields add back to the input seconds |
| Attendance.HourShownIffHours | apps/web/src/pages/MeetingHistory/MeetingHistory.tsx:129-132 | the hour field ('h') appears in the text iff the duration has a whole hour |
| Attendance.GetHostParticipant | apps/web/src/pages/MeetingHistory/MeetingHistory.tsx:120-122 | a host row found is one of the meeting's participants with the owner's user id; none is found iff no participant has that user id |
| Attendance.FormatDuration | apps/web/src/pages/MeetingHistory/MeetingHistory.tsx:124-133 | the duration text is at least "0m 0s" long and ends with the seconds unit 's' (its fields are stated by FormatDurationRoundTrip) |
| Attendance.MakeRow | apps/web/src/pages/MeetingHistory/MeetingHistory.tsx:155-160 | a row's percentage is the participant's attendance against the host time given, at most 100; the bar width equals it; low iff under 50; host iff the participant's user owns the meeting; the duration text is the participant's formatted duration |
| Attendance.Rows | apps/web/src/pages/MeetingHistory/MeetingHistory.tsx:154-199 | one row per participant, in order; row i is scored from participant i's seconds against the host duration, its bar width equals its percentage (at most 100), it is low iff under 50, host iff that participant's user owns the meeting, and it shows that participant's formatted duration |
| Attendance.AttendanceListAsWritten | apps/web/src/pages/MeetingHistory/MeetingHistory.tsx:114-138 | as written, the list fails exactly when there is no meeting; otherwise it shows the meeting's title, the host's formatted duration and the rows |
| Attendance.AttendanceList | apps/web/src/pages/MeetingHistory/MeetingHistory.tsx:114-138 | with the guard first, no meeting renders nothing; a meeting renders what the component as written renders |
| Attendance.NullMeetingThrows | apps/web/src/pages/MeetingHistory/MeetingHistory.tsx:135-138 | as written, a null meeting fails before the guard is reached; the corrected list renders nothing |
| Attendance.NoHostAllZero | apps/web/src/pages/MeetingHistory/MeetingHistory.tsx:135-160 | without a host row, the host time is 0 and every row is at 0%, low and not the host |
| Attendance.HostRowScoresFull | apps/web/src/pages/MeetingHistory/MeetingHistory.tsx:155-160 | with one row per user, the host's own row is marked host and scores 100% whenever the host time is positive |
| MeetingRoom.Pad2 | apps/web/src/pages/Meeting/Meeting.tsx:41 | a field padded to two digits is all digits, keeps its value, has at least two characters and exactly two below 100 |
| MeetingRoom.FormatTime | apps/web/src/pages/Meeting/Meeting.tsx:35-44 | under an hour the clock is `MM:SS`, 5 characters with two-digit fields; from an hour on it is `HH:MM:SS`: an all-digit hour field of at least two digits, then two-digit minute and second fields, each after a colon, at least 8 characters, and at least 9 from 100 hours (hours are not cut) |
| MeetingRoom.ShortClock | apps/web/src/pages/Meeting/Meeting.tsx:43 | `MM:SS` is five characters, colon in the middle, digits around it |
| MeetingRoom.LongClock | apps/web/src/pages/Meeting/Meeting.tsx:41 | `HH:MM:SS` is an all-digit hour field of at least two digits, a colon, two digits, a colon and two digits; from 100 hours on it has at least 9 characters, so the hour field is not cut |
| MeetingRoom.ShortClockNumbers | apps/web/src/pages/Meeting/Meeting.tsx:43 | the `MM:SS` text reads back as exactly [M, S] |
| MeetingRoom.LongClockNumbers | apps/web/src/pages/Meeting/Meeting.tsx:41 | the `HH:MM:SS` text reads back as exactly [H, M, S], however many hour digits there are |
| MeetingRoom.FormatTimeRoundTrip | apps/web/src/pages/Meeting/Meeting.tsx:35-44 | the clock carries [h, m, s] from an hour on and [m, s] below, and those fields add back to the input seconds |
| MeetingRoom.MeetingPage.constructor | apps/web/src/pages/Meeting/Meeting.tsx:22-26 | a new page has no token or meeting, a counter at 0, no interval and no effects |
| MeetingRoom.MeetingPage.ClockText | apps/web/src/pages/Meeting/Meeting.tsx:95 | the header shows `formatTime(elapsedTime)`, and its numbers add back up to the elapsed seconds |
| MeetingRoom.MeetingPage.Mount | apps/web/src/pages/Meeting/Meeting.tsx:46-60 | mounting sends exactly one join request for the page's code |
| MeetingRoom.MeetingPage.OnJoinResponse | apps/web/src/pages/Meeting/Meeting.tsx:47-58 | an empty response changes nothing; otherwise token and meeting are stored, the counter is seeded with the recorded duration (0 when absent), and one new interval is started and stored in the ref |
| MeetingRoom.MeetingPage.Tick | apps/web/src/pages/Meeting/Meeting.tsx:54-56 | a tick of a running interval adds exactly one; a tick of a cleared one adds nothing; the counter never decreases |
| MeetingRoom.MeetingPage.ClearStoredInterval | apps/web/src/pages/Meeting/Meeting.tsx:64-66 | the interval in the ref, if any, stops running and one clear is issued |
| MeetingRoom.MeetingPage.LeaveRoom | apps/web/src/pages/Meeting/Meeting.tsx:70-76 | leaving clears the stored interval first, then navigates to the dashboard, then sends the leave request; the stored interval no longer runs |
| MeetingRoom.MeetingPage.Unmount | apps/web/src/pages/Meeting/Meeting.tsx:62-68 | the cleanup clears the stored interval if one was set and does nothing else |
| MeetingRoom.VisitEvents | apps/web/src/pages/Meeting/Meeting.tsx:46-95 | join with a recorded duration, two ticks, leave, one late tick: the page is shown once joined, the effects are exactly join request, interval started, that interval cleared, move to the dashboard, leave request, and the counter reads seed + 2 before leaving and still after the late tick |
| MeetingRoom.Visit | apps/web/src/pages/Meeting/Meeting.tsx:35-95 | after the same visit the header clock reads back as the final count seed + 2 |
| TrackRefs.IsTrackReferenceSubscribed | apps/web/src/chunks/meeting/VideoConference/VideoConference.livekit.ts:31-41 | subscribed implies a reference whose publication has a track; `undefined` and placeholders are never subscribed |
| TrackRefs.IsTrackReferencePublished | apps/web/src/chunks/meeting/VideoConference/VideoConference.livekit.ts:43-53 | `undefined` is not published; a defined value is published iff it is not a placeholder |
| TrackRefs.IsTrackReference | apps/web/src/chunks/meeting/VideoConference/VideoConference.livekit.ts:21-29 | holds exactly for defined values with a publication, the same values as the published check |
| TrackRefs.IsTrackReferencePlaceholder | apps/web/src/chunks/meeting/VideoConference/VideoConference.livekit.ts:55-66 | `undefined` is no placeholder; a defined value is one iff it is not published |
| TrackRefs.Classification | apps/web/src/chunks/meeting/VideoConference/VideoConference.livekit.ts:21-66 | `undefined` is neither kind; subscribed implies published; a defined value is a track reference iff it has a publication, a placeholder iff it has none, and never both |
| TrackRefs.GetTrackReferenceSource | apps/web/src/chunks/meeting/VideoConference/VideoConference.livekit.ts:90-96 | the publication's source for a reference, the own source for a placeholder |
| TrackRefs.GetTrackReferenceId | apps/web/src/chunks/meeting/VideoConference/VideoConference.livekit.ts:75-85 | a safe integer (magnitude below 2^53) gets its decimal text (with a leading '-' when negative), which reads back as the integer; any other number gets the engine's text for it; a reference's or placeholder's id contains '_' |
| TrackRefs.RefIdShape | apps/web/src/chunks/meeting/VideoConference/VideoConference.livekit.ts:72-81 | both id shapes are identity, the reported source, and the track sid or the word "placeholder", joined by '_' |
| TrackRefs.NumberIdIsNotRefId | apps/web/src/chunks/meeting/VideoConference/VideoConference.livekit.ts:75-81 | a number's id, integer or not, has no '_' and so never equals the id of a reference or placeholder |
| TrackRefs.IsEqualTrackRef | apps/web/src/chunks/meeting/VideoConference/VideoConference.livekit.ts:98-110 | never equal to `undefined`; two references are equal iff their track sids are; equal values are equal |
| TrackRefs.IsEqualTrackRefSymmetric | apps/web/src/chunks/meeting/VideoConference/VideoConference.livekit.ts:98-110 | equality is symmetric |
| TrackRefs.SourceNameInjective | apps/web/src/chunks/meeting/VideoConference/VideoConference.livekit.ts:79-81 | different sources have different names in an id |
| TrackRefs.ShorterNameDiffers | apps/web/src/chunks/meeting/VideoConference/VideoConference.livekit.ts:79-81 | `identity_source` texts whose source names differ in length differ, whatever the identities |
| TrackRefs.IdentitySourceInjective | apps/web/src/chunks/meeting/VideoConference/VideoConference.livekit.ts:79-81 | the `identity_source` part of an id determines both the identity and the source |
| TrackRefs.PlaceholderEquality | apps/web/src/chunks/meeting/VideoConference/VideoConference.livekit.ts:105-108 | two placeholders are equal iff they share identity and source |
| TrackRefs.PlaceholderMatchesSidNamedPlaceholder | apps/web/src/chunks/meeting/VideoConference/VideoConference.livekit.ts:105-108 | a placeholder and a reference of the same participant and source compare equal by id when the reference's track sid is the text "placeholder" |
| TrackRefs.PinMatches | apps/web/src/chunks/meeting/VideoConference/VideoConference.livekit.ts:123-135 | a pin entry matches only an entry of the same kind and identity, with the same track sid for a reference and the same source for a placeholder; every entry matches itself |
| TrackRefs.AnyPinMatches | apps/web/src/chunks/meeting/VideoConference/VideoConference.livekit.ts:123-135 | `some` over the pin state holds iff some entry matches |
| TrackRefs.IsTrackReferencePinned | apps/web/src/chunks/meeting/VideoConference/VideoConference.livekit.ts:115-139 | never pinned with an undefined pin state; a reference is pinned iff some pinned reference has its identity and track sid; a placeholder iff some pinned placeholder has its identity and source |
| TrackRefs.PinnedWhenInPinState | apps/web/src/chunks/meeting/VideoConference/VideoConference.livekit.ts:115-139 | anything that is itself in the pin state is pinned |
| TrackRefs.IsPlaceholderReplacement | apps/web/src/chunks/meeting/VideoConference/VideoConference.livekit.ts:146-159 | holds iff current is a placeholder, next is a reference, and they share identity and source |
| ControlBar.TrackSourceToProtocol | apps/web/src/chunks/meeting/ControlBar/ControlBar.tsx:7-18 | codes lie in 0..3, and the code is 0 exactly for the sources other than camera, microphone and screen share |
| ControlBar.ProtocolSource | apps/web/src/chunks/meeting/ControlBar/ControlBar.tsx:7-18 | the codes 1..3, and only they, stand for a source |
| ControlBar.ProtocolRoundTrip | apps/web/src/chunks/meeting/ControlBar/ControlBar.tsx:7-18 | reading back a non-zero code gives its source (camera 1, microphone 2, screen share 3) |
| ControlBar.ProtocolInjective | apps/web/src/chunks/meeting/ControlBar/ControlBar.tsx:7-18 | the code map is injective on the sources with a code of their own |
| ControlBar.CanPublishSource | apps/web/src/chunks/meeting/ControlBar/ControlBar.tsx:55-61 | a source may be published only with `canPublish`, and every source may be with `canPublish` and an empty allow-list |
| ControlBar.CanPublishSourceMeaning | apps/web/src/chunks/meeting/ControlBar/ControlBar.tsx:55-61 | nothing without `canPublish`; everything with an empty allow-list; otherwise exactly the sources whose codes are listed (e.g. [1] allows the camera alone) |
| ControlBar.Coalesce | apps/web/src/chunks/meeting/ControlBar/ControlBar.tsx:62-64 | `??=` keeps a given value and fills an absent one with the default |
| ControlBar.AndAlso | apps/web/src/chunks/meeting/ControlBar/ControlBar.tsx:65 | `a && b` is false when `a` is false and `b` itself (possibly undefined) otherwise |
| ControlBar.VisibleControls | apps/web/src/chunks/meeting/ControlBar/ControlBar.tsx:45-66 | microphone, camera, screen share and leave are always decided; without permissions chat is hidden; chat shows only if the caller passed `chat: true` |
| ControlBar.BuildVisibleControls | apps/web/src/chunks/meeting/ControlBar/ControlBar.tsx:45-66 | the object built by spreading and then assigning field by field equals the visible controls defined field by field |
| ControlBar.LeaveShownByDefault | apps/web/src/chunks/meeting/ControlBar/ControlBar.tsx:45 | the leave button shows unless the caller hides it explicitly |
| ControlBar.NoPermissionsHidesMedia | apps/web/src/chunks/meeting/ControlBar/ControlBar.tsx:49-53 | without permissions camera, chat, microphone and screen share are hidden whatever the caller asked |
| ControlBar.ExplicitValuesKept | apps/web/src/chunks/meeting/ControlBar/ControlBar.tsx:62-65 | with permissions every given value is kept, and an absent media control shows iff its source may be published |
| ControlBar.ChatShownOnlyIfRequested | apps/web/src/chunks/meeting/ControlBar/ControlBar.tsx:65 | chat shows iff there are permissions and the caller asked for chat |
| ControlBar.EffectiveVariation | apps/web/src/chunks/meeting/ControlBar/ControlBar.tsx:42-43 | the given variation, or `minimal` without one |
| ControlBar.ShowIcon | apps/web/src/chunks/meeting/ControlBar/ControlBar.tsx:68-71 | icons show for every variation but `textOnly` |
| ControlBar.ShowText | apps/web/src/chunks/meeting/ControlBar/ControlBar.tsx:72-75 | text shows for every variation but `minimal` |
| ControlBar.VariationFlags | apps/web/src/chunks/meeting/ControlBar/ControlBar.tsx:68-75 | every variation shows icons or text; only `verbose` shows both; the default shows icons only |
| ControlBar.Rendered | apps/web/src/chunks/meeting/ControlBar/ControlBar.tsx:111-174 | each toggle and the leave button is rendered exactly when its control shows, the screen-share toggle exactly when its control shows and screen capture is supported; the start-media button always |
| ControlBar.Keep | apps/web/src/chunks/meeting/ControlBar/ControlBar.tsx:111-174 | keeps exactly the buttons whose guard holds, in their markup order |
| ControlBar.NoPermissionsOnlyLeave | apps/web/src/chunks/meeting/ControlBar/ControlBar.tsx:45-54 | before permissions are known the bar holds nothing but the leave and start-media buttons, whatever `controls` asks for |
| ControlBar.Buttons | apps/web/src/chunks/meeting/ControlBar/ControlBar.tsx:109-176 | the bar holds exactly the buttons whose control shows (screen share also needs screen capture), in markup order, with the start-media button always last |
| ControlBar.Label | apps/web/src/chunks/meeting/ControlBar/ControlBar.tsx:119-171 | a button has text iff the variation shows text and it is not the start-media button; screen share reads "Stop screen share" while sharing and "Share screen" otherwise |
| ControlBar.SyncChatOpen | apps/web/src/chunks/meeting/ControlBar/ControlBar.tsx:37-41 | the open flag follows a defined `showChat` and keeps its value otherwise |
| ControlBar.ChatIcon | apps/web/src/chunks/meeting/ControlBar/ControlBar.tsx:164 | the filled chat icon shows iff the chat is open |
| Conference.ScreenShareTracks | apps/web/src/chunks/meeting/VideoConference/VideoConference.tsx:59-61 | exactly the track references whose publication is a screen share; the first is the first such track of the list |
| Conference.CarouselTracks | apps/web/src/chunks/meeting/VideoConference/VideoConference.tsx:64 | exactly the tracks not equal to the focus; with no focus, all tracks unchanged |
| Conference.LayoutOf | apps/web/src/chunks/meeting/VideoConference/VideoConference.tsx:112-127 | the grid iff there is no focus, showing every track; otherwise the focus layout around the focused track, whose carousel holds only tracks of the list |
| Conference.LayoutShowsEveryTrack | apps/web/src/chunks/meeting/VideoConference/VideoConference.tsx:112-127 | without focus the grid shows every track; with focus the focused track is not repeated in the carousel and every track is in the carousel or equal to the focus |
| Conference.AnySubscribed | apps/web/src/chunks/meeting/VideoConference/VideoConference.tsx:69 | a subscribed screen share exists only in a non-empty list, so `screenShareTracks[0]` is defined when it is pinned |
| Conference.SidPresent | apps/web/src/chunks/meeting/VideoConference/VideoConference.tsx:76-80 | a remembered placeholder (no sid) is never present; a remembered reference still in the list is present |
| Conference.ScreenShareRule | apps/web/src/chunks/meeting/VideoConference/VideoConference.tsx:66-84 | at most one pin action per run, and a run with no action keeps the remembered track |
| Conference.RememberedIsScreenShare | apps/web/src/chunks/meeting/VideoConference/VideoConference.tsx:67-83 | the remembered track is always a screen-share reference |
| Conference.PinsFirstScreenShare | apps/web/src/chunks/meeting/VideoConference/VideoConference.tsx:67-73 | with a subscribed screen share and nothing remembered, the first screen share of the track list is pinned and remembered |
| Conference.NothingWithoutShareOrMemory | apps/web/src/chunks/meeting/VideoConference/VideoConference.tsx:66-84 | with no subscribed screen share and nothing remembered, the rule dispatches nothing and remembers nothing |
| Conference.ClearsWhenGone | apps/web/src/chunks/meeting/VideoConference/VideoConference.tsx:74-84 | when no screen share carries the remembered track's sid, the pin is cleared and the track forgotten |
| Conference.QuietWhileRemembered | apps/web/src/chunks/meeting/VideoConference/VideoConference.tsx:66-84 | while the remembered track's sid is still shared, the rule dispatches nothing and keeps it |
| Conference.PinOnlyForSubscribedShare | apps/web/src/chunks/meeting/VideoConference/VideoConference.tsx:68-73 | the rule pins only when a screen share is subscribed and nothing is remembered, and pins only screen shares |
| Conference.AutoFocusOnce | apps/web/src/chunks/meeting/VideoConference/VideoConference.tsx:66-84 | after an auto-pin, running the rule again over the same screen shares dispatches nothing |
| Conference.FindSameSlot | apps/web/src/chunks/meeting/VideoConference/VideoConference.tsx:86-90 | no result iff no track has the focus's identity and source; a result is the first such track |
| Conference.FocusUpgrade | apps/web/src/chunks/meeting/VideoConference/VideoConference.tsx:85-94 | an upgrade is always a track of the list that replaces the focused placeholder (`isPlaceholderReplacement`), and it is the first track of the focus's slot |
| Conference.PlaceholderUpgradedToFirstTrack | apps/web/src/chunks/meeting/VideoConference/VideoConference.tsx:85-94 | conversely, a focused placeholder whose slot's first track is a reference is upgraded to that track |
| Conference.FocusedReferenceStays | apps/web/src/chunks/meeting/VideoConference/VideoConference.tsx:85 | a focused reference is never upgraded |
| Conference.PlaceholderUpgradedToItsTrack | apps/web/src/chunks/meeting/VideoConference/VideoConference.tsx:85-94 | when the placeholder's slot holds a single track that is a reference, the focus is re-pinned to that reference |
| Conference.ChatDisplay | apps/web/src/chunks/meeting/VideoConference/VideoConference.tsx:131 | the chat panel is displayed as a grid iff `showChat`, hidden otherwise |
| Conference.ConferenceControlBar | apps/web/src/chunks/meeting/VideoConference/VideoConference.tsx:128 | with `{ chat: true }` the chat button shows iff there are permissions, whatever `canPublishData` says; leave always shows; the camera follows `canPublishSource` |
| Conference.VideoConferenceView.constructor | apps/web/src/chunks/meeting/VideoConference/VideoConference.tsx:38-43 | the widget starts with chat and settings hidden and no unread messages, and nothing is remembered or dispatched |
| Conference.VideoConferenceView.WidgetUpdate | apps/web/src/chunks/meeting/VideoConference/VideoConference.tsx:53-55 | the reported widget state replaces the current one and nothing else changes |
| Conference.VideoConferenceView.RunEffect | apps/web/src/chunks/meeting/VideoConference/VideoConference.tsx:66-94 | one run dispatches the screen-share rule's action and then the focus upgrade's pin, in that order, leaves the rule's remembered track, and keeps the remembered track a screen share |

## Left out

- Rendering, styling, animation, icons other than the chat toggle's, and the modal that
  hosts the attendance list are not modelled. Which elements show is modelled as data
  (`Row`, `View`, `Buttons`, `Layout`).
- Server-side bookkeeping of `durationInSecs` and `isActive` is not part of this model. The
  periodic refresh of meeting state is not in `Meeting.tsx` and is not modelled.
- HTTP calls, navigation and timers are effects appended to a log (`MeetingRoom.Effect`,
  `Conference.PinAction`). `setInterval` is a set of running interval ids, and each firing is
  a `Tick` call. The one-second timing is not modelled.
- The LiveKit SDK and its hooks are inputs, not models: `useTracks`, `usePinnedTracks`,
  `useLocalParticipantPermissions`, the layout context, media-device menus, saved user
  choices and device errors. `layoutContext.pin.dispatch` is taken to be defined, and each
  dispatch becomes a returned `PinAction`.
- Conference.VideoConferenceView.RunEffect: models one run of the effect. Which renders
  trigger a run (the dependency list) is not modelled.
- Conference.FocusUpgrade: the `!==` reference comparison is modelled as structural
  inequality. The two cannot disagree here: an upgrade must be a track reference, and a
  track reference is never equal in every field to the focused placeholder.
- Attendance.AttendancePercentage: `Math.round` of a floating-point quotient is modelled as
  exact half-up rounding, `(200·min(p,h) + h) div (2h)`. Doubles may round differently at
  exact .5 boundaries.
- TrackRefs.GetTrackReferenceId: the engine's text for a number that is not a safe
  integer (`0.5`, `NaN`, `18446744073709552000`, `1e+21`) is an input carried with the number,
  not computed. The model only fixes its alphabet (digits, sign, point, exponent, `NaN`,
  `Infinity`). The string argument branch and the error thrown for an
  object that is neither kind are not modelled. The argument types here admit only numbers,
  references and placeholders, so the error branch is unreachable. The object shape checks
  (`hasOwnProperty('participant')`, `'source'`) always hold for these two shapes. The own
  `track` property is a flag on the reference.
- ControlBar.VisibleControls: an own property of `controls` that holds `undefined` is
  treated as absent. The `settings` control is not used by the bar and is not modelled.
- ControlBar: the screen-share toggle's own enabled state is an input of `Label`. The
  browser's `getDisplayMedia` support is an input of `Buttons`.
- MeetingRoom.MeetingPage: the LiveKit room connection and `onDisconnected`/`onError` are not
  modelled. `LeaveRoom` is the handler they call. Header visibility toggling is left out.
- MeetingRoom.VisitEvents, MeetingRoom.Visit: a fixed scenario about the page being shown, the
  effect order, the counter and the clock text. It is not a statement about every sequence
  of events.
- Attendance.FormatDuration: durations are whole non-negative seconds written as plain digits.
  Fractional seconds are not modelled. Past 2^53 seconds a double no longer holds every
  integer, so JavaScript's arithmetic and digits there differ from the exact ones modelled.
- MeetingRoom.FormatTime: the count is a natural and the fields are computed exactly. Past
  2^53 seconds JavaScript's division and digits are inexact, which is not modelled.
- Pages.MeetingCode: the inverse of the meeting route, used to state injectivity. It is not
  the application's router.

## Findings

| source | as written | input that shows it | evidently intended | confidence | as-written member | corrected member |
|---|---|---|---|---|---|---|
| apps/web/src/pages/MeetingHistory/MeetingHistory.tsx:135-138 | `getHostParticipant(meeting)` reads `meeting.participants` before the `if (!meeting) return null` guard | `meeting = null`, the history page's initial selection, when the modal renders its content before a meeting is chosen | no meeting selected renders nothing | medium, not executed (depends on the modal mounting its children while closed) | Attendance.AttendanceListAsWritten (shown by Attendance.NullMeetingThrows) | Attendance.AttendanceList |
