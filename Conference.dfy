/**
 * The conference view: which tracks are screen shares, which go to the carousel beside the
 * focused track, the effect that pins a new screen share once and clears the pin when it
 * goes away, the upgrade of a focused placeholder to its published track, and the chat
 * widget's state.
 */
module Conference {
  import opened Wrappers
  import opened TrackRefs
  import ControlBar

  // ---------------------------------------------------------------------------
  // Track filters

  /** A reference whose publication comes from a screen share. */
  predicate IsScreenShareRef(t: TrackRefOrPlaceholder) {
    IsTrackReference(Some(t)) && t.publication.source == ScreenShare
  }

  /** `tracks[k]` is a screen share and no earlier track is one. */
  predicate FirstScreenShareAt(tracks: seq<TrackRefOrPlaceholder>, k: int) {
    0 <= k < |tracks| && IsScreenShareRef(tracks[k]) && forall j :: 0 <= j < k ==> !IsScreenShareRef(tracks[j])
  }

  /** `screenShareTracks`: the screen-share references among `tracks`, in their order. */
  function ScreenShareTracks(tracks: seq<TrackRefOrPlaceholder>): (ss: seq<TrackRefOrPlaceholder>)
    ensures forall t :: t in ss <==> t in tracks && IsScreenShareRef(t)
    ensures ss != [] ==> exists k :: FirstScreenShareAt(tracks, k) && tracks[k] == ss[0]
  {
    if tracks == [] then []
    else
      var rest := ScreenShareTracks(tracks[1..]);
      assert forall t :: t in tracks <==> t == tracks[0] || t in tracks[1..];
      if IsScreenShareRef(tracks[0]) then
        [tracks[0]] + rest
      else
        FirstShiftsByOne(tracks, rest);
        rest
  }

  /** A first screen share of the tail, behind a head that is not one, is the first of the whole list. */
  lemma FirstShiftsByOne(tracks: seq<TrackRefOrPlaceholder>, rest: seq<TrackRefOrPlaceholder>)
    requires tracks != [] && !IsScreenShareRef(tracks[0])
    requires rest != [] ==> exists k :: FirstScreenShareAt(tracks[1..], k) && tracks[1..][k] == rest[0]
    ensures rest != [] ==> exists k :: FirstScreenShareAt(tracks, k) && tracks[k] == rest[0]
  {
    if rest != [] {
      var k :| FirstScreenShareAt(tracks[1..], k) && tracks[1..][k] == rest[0];
      assert forall j :: 1 <= j < k + 1 ==> tracks[j] == tracks[1..][j - 1];
      assert tracks[k + 1] == rest[0];
    }
  }

  /** `carouselTracks`: every track that is not equal to the focused one, in order. */
  function CarouselTracks(tracks: seq<TrackRefOrPlaceholder>, focus: Option<TrackRefOrPlaceholder>): (c: seq<TrackRefOrPlaceholder>)
    ensures forall t :: t in c <==> t in tracks && !IsEqualTrackRef(Some(t), focus)
    ensures focus.None? ==> c == tracks
  {
    if tracks == [] then []
    else
      var rest := CarouselTracks(tracks[1..], focus);
      assert forall t :: t in tracks <==> t == tracks[0] || t in tracks[1..];
      if IsEqualTrackRef(Some(tracks[0]), focus) then rest
      else [tracks[0]] + rest
  }

  /** The layout: a grid of every track without a focus; otherwise the carousel beside the focus. */
  datatype Layout =
    | Grid(tiles: seq<TrackRefOrPlaceholder>)
    | FocusLayout(carousel: seq<TrackRefOrPlaceholder>, focused: TrackRefOrPlaceholder)

  function LayoutOf(tracks: seq<TrackRefOrPlaceholder>, focus: Option<TrackRefOrPlaceholder>): (l: Layout)
    ensures l.Grid? <==> focus.None?
    ensures l.Grid? ==> l.tiles == tracks
    ensures l.FocusLayout? ==> l.focused == focus.value && forall t :: t in l.carousel ==> t in tracks
  {
    if focus.None? then Grid(tracks) else FocusLayout(CarouselTracks(tracks, focus), focus.value)
  }

  /**
   * Every track is on screen once: in the grid, or in the carousel unless it equals the
   * focused track; the focused track itself is never repeated in the carousel.
   */
  lemma {:induction false} LayoutShowsEveryTrack(tracks: seq<TrackRefOrPlaceholder>, focus: Option<TrackRefOrPlaceholder>)
    ensures var l := LayoutOf(tracks, focus);
      (focus.None? ==> l == Grid(tracks))
      && (focus.Some? ==> (l.FocusLayout? && l.focused == focus.value && focus.value !in l.carousel
          && forall t :: t in tracks ==> t in l.carousel || IsEqualTrackRef(Some(t), focus)))
  {
    if focus.Some? {
      var c := CarouselTracks(tracks, focus);
      assert IsEqualTrackRef(Some(focus.value), focus);
      assert focus.value !in c;
    }
  }

  // ---------------------------------------------------------------------------
  // Screen-share auto-focus

  datatype PinAction = SetPin(trackReference: TrackRefOrPlaceholder) | ClearPin

  /** `screenShareTracks.some(track => track.publication.isSubscribed)`. */
  function AnySubscribed(ss: seq<TrackRefOrPlaceholder>): (b: bool)
    ensures b ==> |ss| > 0
  {
    exists t :: t in ss && t.TrackReference? && t.publication.isSubscribed
  }

  /** `remembered?.publication?.trackSid`: a placeholder has none. */
  function PublicationSid(t: TrackRefOrPlaceholder): Option<string> {
    if t.TrackReference? then Some(t.publication.trackSid) else None
  }

  /** Whether some screen share carries the remembered track's sid. */
  function SidPresent(ss: seq<TrackRefOrPlaceholder>, remembered: TrackRefOrPlaceholder): (b: bool)
    ensures remembered.Placeholder? ==> !b
    ensures remembered.TrackReference? && remembered in ss ==> b
  {
    exists t :: t in ss && t.TrackReference? && Some(t.publication.trackSid) == PublicationSid(remembered)
  }

  /** What the screen-share part of the effect dispatches and what it leaves remembered. */
  datatype RuleOutcome = RuleOutcome(actions: seq<PinAction>, remembered: Option<TrackRefOrPlaceholder>)

  /**
   * The screen-share rule: with a subscribed screen share and nothing remembered, pin the
   * first screen share and remember it; else, with a remembered track whose sid is gone,
   * clear the pin and forget it; otherwise do nothing.
   */
  function ScreenShareRule(ss: seq<TrackRefOrPlaceholder>, last: Option<TrackRefOrPlaceholder>): (o: RuleOutcome)
    ensures |o.actions| <= 1
    ensures o.actions == [] ==> o.remembered == last
  {
    if AnySubscribed(ss) && last.None? then
      RuleOutcome([SetPin(ss[0])], Some(ss[0]))
    else if last.Some? && !SidPresent(ss, last.value) then
      RuleOutcome([ClearPin], None)
    else
      RuleOutcome([], last)
  }

  /** No subscribed screen share and nothing remembered: nothing is dispatched or remembered. */
  lemma NothingWithoutShareOrMemory(ss: seq<TrackRefOrPlaceholder>)
    requires !AnySubscribed(ss)
    ensures ScreenShareRule(ss, None) == RuleOutcome([], None)
  {
  }

  /** The rule only ever remembers a screen-share reference, given one that was. */
  lemma {:induction false} RememberedIsScreenShare(tracks: seq<TrackRefOrPlaceholder>, last: Option<TrackRefOrPlaceholder>)
    requires last.Some? ==> IsScreenShareRef(last.value)
    ensures var o := ScreenShareRule(ScreenShareTracks(tracks), last);
      o.remembered.Some? ==> IsScreenShareRef(o.remembered.value)
  {
    var ss := ScreenShareTracks(tracks);
    if AnySubscribed(ss) && last.None? {
      assert ss[0] in ss;
    }
  }

  /** Some subscribed screen share and nothing remembered: pin the first screen share of the track list. */
  lemma {:induction false} PinsFirstScreenShare(tracks: seq<TrackRefOrPlaceholder>)
    requires AnySubscribed(ScreenShareTracks(tracks))
    ensures var o := ScreenShareRule(ScreenShareTracks(tracks), None);
      o.actions == [SetPin(o.remembered.value)] && o.remembered.Some?
      && exists k :: FirstScreenShareAt(tracks, k) && tracks[k] == o.remembered.value
  {
    var ss := ScreenShareTracks(tracks);
    assert ss[0] in ss;
  }

  /** A remembered track whose sid is no longer among the screen shares: clear the pin and forget it. */
  lemma ClearsWhenGone(ss: seq<TrackRefOrPlaceholder>, last: TrackRefOrPlaceholder)
    requires !SidPresent(ss, last)
    ensures ScreenShareRule(ss, Some(last)) == RuleOutcome([ClearPin], None)
  {
  }

  /** While the remembered track is still shared, the rule dispatches nothing and keeps it. */
  lemma QuietWhileRemembered(ss: seq<TrackRefOrPlaceholder>, last: TrackRefOrPlaceholder)
    requires SidPresent(ss, last)
    ensures ScreenShareRule(ss, Some(last)) == RuleOutcome([], Some(last))
  {
  }

  /** The rule never pins without a subscribed screen share, and pins only screen shares. */
  lemma {:induction false} PinOnlyForSubscribedShare(tracks: seq<TrackRefOrPlaceholder>, last: Option<TrackRefOrPlaceholder>)
    ensures var o := ScreenShareRule(ScreenShareTracks(tracks), last);
      forall a :: a in o.actions && a.SetPin? ==>
        AnySubscribed(ScreenShareTracks(tracks)) && last.None? && IsScreenShareRef(a.trackReference)
  {
    var ss := ScreenShareTracks(tracks);
    if AnySubscribed(ss) && last.None? {
      assert ss[0] in ss;
    }
  }

  /**
   * Auto-focus fires once per remembered track: after the rule has pinned a screen share,
   * running it again over the same screen shares dispatches nothing.
   */
  lemma {:induction false} AutoFocusOnce(ss: seq<TrackRefOrPlaceholder>)
    requires forall t :: t in ss ==> t.TrackReference?
    requires AnySubscribed(ss)
    ensures ScreenShareRule(ss, ScreenShareRule(ss, None).remembered).actions == []
  {
    assert ss[0] in ss;
    assert SidPresent(ss, ss[0]);
    QuietWhileRemembered(ss, ss[0]);
  }

  // ---------------------------------------------------------------------------
  // Placeholder focus upgrade

  /** The track callback of the upgrade's `find`: same participant identity and same source. */
  predicate SameSlot(t: TrackRefOrPlaceholder, f: TrackRefOrPlaceholder) {
    Identity(t) == Identity(f) && t.source == f.source
  }

  /** `tracks[k]` is in the slot of `f` and no earlier track is. */
  predicate FirstInSlotAt(tracks: seq<TrackRefOrPlaceholder>, f: TrackRefOrPlaceholder, k: int) {
    0 <= k < |tracks| && SameSlot(tracks[k], f) && forall j :: 0 <= j < k ==> !SameSlot(tracks[j], f)
  }

  /** `tracks.find(...)`: the first track in the slot of `f`, if any. */
  function FindSameSlot(tracks: seq<TrackRefOrPlaceholder>, f: TrackRefOrPlaceholder): (r: Option<TrackRefOrPlaceholder>)
    ensures r.None? <==> forall t :: t in tracks ==> !SameSlot(t, f)
    ensures r.Some? ==> exists k :: FirstInSlotAt(tracks, f, k) && tracks[k] == r.value
  {
    if tracks == [] then None
    else if SameSlot(tracks[0], f) then Some(tracks[0])
    else
      var r := FindSameSlot(tracks[1..], f);
      assert forall t :: t in tracks <==> t == tracks[0] || t in tracks[1..];
      if r.Some? then
        var k :| FirstInSlotAt(tracks[1..], f, k) && tracks[1..][k] == r.value;
        assert forall j :: 1 <= j < k + 1 ==> tracks[j] == tracks[1..][j - 1];
        assert tracks[k + 1] == r.value;
        r
      else r
  }

  /**
   * The track to re-pin when the focused track is a placeholder: the slot's first track, if
   * that is a reference different from the focus.
   */
  function FocusUpgrade(tracks: seq<TrackRefOrPlaceholder>, focus: Option<TrackRefOrPlaceholder>): (u: Option<TrackRefOrPlaceholder>)
    ensures u.Some? ==> focus.Some? && IsPlaceholderReplacement(focus.value, u.value) && u.value in tracks
    ensures u.Some? ==> focus.Some? && exists k :: FirstInSlotAt(tracks, focus.value, k) && tracks[k] == u.value
  {
    if focus.Some? && !IsTrackReference(focus) then
      var updated := FindSameSlot(tracks, focus.value);
      if updated != focus && IsTrackReference(updated) then updated else None
    else None
  }

  /**
   * The converse: a focused placeholder is upgraded to the first track of its slot whenever
   * that track is a reference.
   */
  lemma {:induction false} PlaceholderUpgradedToFirstTrack(tracks: seq<TrackRefOrPlaceholder>, focus: TrackRefOrPlaceholder, k: nat)
    requires focus.Placeholder? && FirstInSlotAt(tracks, focus, k) && tracks[k].TrackReference?
    ensures FocusUpgrade(tracks, Some(focus)) == Some(tracks[k])
  {
    var r := FindSameSlot(tracks, focus);
    assert tracks[k] in tracks;
    var k' :| FirstInSlotAt(tracks, focus, k') && tracks[k'] == r.value;
  }

  /** A focused reference is never upgraded. */
  lemma FocusedReferenceStays(tracks: seq<TrackRefOrPlaceholder>, focus: TrackRefOrPlaceholder)
    requires focus.TrackReference?
    ensures FocusUpgrade(tracks, Some(focus)) == None
  {
  }

  /**
   * When a participant's slot holds a single track and it is a reference, a placeholder
   * focused in that slot is replaced by that reference.
   */
  lemma {:induction false} PlaceholderUpgradedToItsTrack(tracks: seq<TrackRefOrPlaceholder>, focus: TrackRefOrPlaceholder, t: TrackRefOrPlaceholder)
    requires focus.Placeholder? && t.TrackReference? && t in tracks && SameSlot(t, focus)
    requires forall x :: x in tracks && SameSlot(x, focus) ==> x == t
    ensures FocusUpgrade(tracks, Some(focus)) == Some(t)
  {
    var r := FindSameSlot(tracks, focus);
    assert r.Some?;
    var k :| FirstInSlotAt(tracks, focus, k) && tracks[k] == r.value;
    assert tracks[k] in tracks;
  }

  // ---------------------------------------------------------------------------
  // The conference component's state

  datatype WidgetState = WidgetState(showChat: bool, unreadMessages: nat, showSettings: bool)

  const InitialWidgetState := WidgetState(false, 0, false)

  /** The chat panel's `display` style: shown as a grid exactly when the widget state says so. */
  function ChatDisplay(w: WidgetState): (display: string)
    ensures display == "grid" <==> w.showChat
    ensures display == "none" <==> !w.showChat
  {
    if w.showChat then "grid" else "none"
  }

  /** The controls the conference passes to its control bar. */
  const ConferenceControls := ControlBar.Controls(None, None, Some(true), None, None)

  /**
   * In the conference, the chat button shows exactly when the local participant has
   * permissions at all, whatever they say about data; the media buttons follow the
   * permissions and the leave button always shows.
   */
  lemma ConferenceControlBar(perms: Option<ControlBar.Permissions>)
    ensures var v := ControlBar.VisibleControls(Some(ConferenceControls), perms);
      (ControlBar.Shown(v.chat) <==> perms.Some?)
      && ControlBar.Shown(v.leave)
      && (ControlBar.Shown(v.camera) <==> perms.Some? && ControlBar.CanPublishSource(perms.value, Camera))
  {
    ControlBar.ChatShownOnlyIfRequested(Some(ConferenceControls), perms);
    ControlBar.LeaveShownByDefault(Some(ConferenceControls), perms);
  }

  /**
   * The mounted conference: the widget state, the remembered auto-focused screen share
   * (`lastAutoFocusedScreenShareTrack.current`) and the pin actions dispatched so far.
   */
  class VideoConferenceView {
    var widgetState: WidgetState
    var lastAutoFocused: Option<TrackRefOrPlaceholder>
    var pinDispatches: seq<PinAction>

    /** The remembered track, if any, is a screen-share reference. */
    ghost predicate Valid()
      reads this
    {
      lastAutoFocused.Some? ==> IsScreenShareRef(lastAutoFocused.value)
    }

    constructor ()
      ensures Valid()
      ensures widgetState == InitialWidgetState && lastAutoFocused == None && pinDispatches == []
    {
      widgetState := InitialWidgetState;
      lastAutoFocused := None;
      pinDispatches := [];
    }

    /** `widgetUpdate`: the layout reports a new widget state. */
    method WidgetUpdate(state: WidgetState)
      requires Valid()
      modifies this
      ensures Valid()
      ensures widgetState == state
      ensures lastAutoFocused == old(lastAutoFocused) && pinDispatches == old(pinDispatches)
    {
      widgetState := state;
    }

    /**
     * One run of the effect over the current tracks and focused track: the screen-share
     * rule, then the placeholder upgrade, each dispatching at most one pin action.
     */
    method RunEffect(tracks: seq<TrackRefOrPlaceholder>, focus: Option<TrackRefOrPlaceholder>)
      requires Valid()
      modifies this
      ensures Valid()
      ensures var o := ScreenShareRule(ScreenShareTracks(tracks), old(lastAutoFocused));
        lastAutoFocused == o.remembered
        && pinDispatches == old(pinDispatches) + o.actions
          + (if FocusUpgrade(tracks, focus).Some? then [SetPin(FocusUpgrade(tracks, focus).value)] else [])
      ensures widgetState == old(widgetState)
    {
      var ss := ScreenShareTracks(tracks);
      if AnySubscribed(ss) && lastAutoFocused.None? {
        pinDispatches := pinDispatches + [SetPin(ss[0])];
        lastAutoFocused := Some(ss[0]);
        assert ss[0] in ss;
      } else if lastAutoFocused.Some? && !SidPresent(ss, lastAutoFocused.value) {
        pinDispatches := pinDispatches + [ClearPin];
        lastAutoFocused := None;
      }
      if focus.Some? && !IsTrackReference(focus) {
        var updated := FindSameSlot(tracks, focus.value);
        if updated != focus && IsTrackReference(updated) {
          pinDispatches := pinDispatches + [SetPin(updated.value)];
        }
      }
    }
  }
}
