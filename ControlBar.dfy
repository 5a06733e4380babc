/**
 * The conference control bar: which buttons it shows, given the controls the caller asks
 * for and the local participant's publishing permissions, and how each button is labelled.
 */
module ControlBar {
  import opened Wrappers
  import opened TrackRefs

  // ---------------------------------------------------------------------------
  // Sources as protocol codes

  /** `trackSourceToProtocol`: the wire code of a source; every other source is 0 (unknown). */
  function TrackSourceToProtocol(s: Source): (code: int)
    ensures 0 <= code <= 3
    ensures code == 0 <==> s == ScreenShareAudio || s == Unknown
  {
    match s
    case Camera => 1
    case Microphone => 2
    case ScreenShare => 3
    case _ => 0
  }

  /** The source a non-zero protocol code stands for. */
  function ProtocolSource(code: int): (s: Option<Source>)
    ensures s.Some? <==> 1 <= code <= 3
  {
    if code == 1 then Some(Camera)
    else if code == 2 then Some(Microphone)
    else if code == 3 then Some(ScreenShare)
    else None
  }

  /** Reading back the code of a source gives the source, for every source with a code of its own. */
  lemma ProtocolRoundTrip(s: Source)
    ensures TrackSourceToProtocol(s) != 0 ==> ProtocolSource(TrackSourceToProtocol(s)) == Some(s)
    ensures TrackSourceToProtocol(s) == 0 ==> ProtocolSource(TrackSourceToProtocol(s)) == None
  {
  }

  /** Camera, microphone and screen share have pairwise different codes. */
  lemma ProtocolInjective(s1: Source, s2: Source)
    requires TrackSourceToProtocol(s1) != 0
    requires TrackSourceToProtocol(s1) == TrackSourceToProtocol(s2)
    ensures s1 == s2
  {
    ProtocolRoundTrip(s1);
    ProtocolRoundTrip(s2);
  }

  // ---------------------------------------------------------------------------
  // Permissions

  /** The local participant's permissions as far as the control bar reads them. */
  datatype Permissions = Permissions(canPublish: bool, canPublishData: bool, canPublishSources: seq<int>)

  /** `canPublishSource`: publishing is allowed, and the allow-list is empty or names the source's code. */
  function CanPublishSource(p: Permissions, s: Source): (allowed: bool)
    ensures allowed ==> p.canPublish
    ensures p.canPublish && p.canPublishSources == [] ==> allowed
  {
    p.canPublish && (|p.canPublishSources| == 0 || TrackSourceToProtocol(s) in p.canPublishSources)
  }

  /**
   * An empty allow-list allows every source exactly when publishing is allowed; a non-empty
   * one allows exactly the sources whose codes it lists; the codes of the three named
   * sources are distinct, so allowing one of them says nothing about the other two.
   */
  lemma CanPublishSourceMeaning(p: Permissions, s: Source)
    ensures !p.canPublish ==> !CanPublishSource(p, s)
    ensures p.canPublish && p.canPublishSources == [] ==> CanPublishSource(p, s)
    ensures p.canPublish && p.canPublishSources != [] ==>
      (CanPublishSource(p, s) <==> TrackSourceToProtocol(s) in p.canPublishSources)
    ensures p == Permissions(true, p.canPublishData, [1]) ==> (CanPublishSource(p, s) <==> s == Camera)
  {
  }

  // ---------------------------------------------------------------------------
  // Visible controls

  /**
   * `ControlBarControls`: for each button, shown (`Some(true)`), hidden (`Some(false)`) or
   * left to the defaults (`None`, an absent property).
   */
  datatype Controls = Controls(
    microphone: Option<bool>, camera: Option<bool>, chat: Option<bool>,
    screenShare: Option<bool>, leave: Option<bool>)

  const NoControls := Controls(None, None, None, None, None)

  /** Whether a control value is truthy. */
  predicate Shown(o: Option<bool>) {
    o == Some(true)
  }

  /** The `??` operator: the value if there is one, the default otherwise. */
  function Coalesce(o: Option<bool>, default: bool): (r: Option<bool>)
    ensures r.Some?
    ensures o.Some? ==> r == o
    ensures o.None? ==> r == Some(default)
  {
    if o.Some? then o else Some(default)
  }

  /** The `&&` operator on a boolean and a possibly undefined value: false, or the value itself. */
  function AndAlso(a: bool, b: Option<bool>): (r: Option<bool>)
    ensures !a ==> r == Some(false)
    ensures a ==> r == b
  {
    if !a then Some(false) else b
  }

  /** The controls the caller passed; `undefined` spreads no properties. */
  function Given(controls: Option<Controls>): Controls {
    if controls.Some? then controls.value else NoControls
  }

  /**
   * The visible controls, field by field: `leave` defaults to shown; without permissions the
   * four media buttons are hidden; with permissions an explicit value stays and an absent
   * one is what the permissions allow, chat being `canPublishData && controls.chat`.
   */
  function VisibleControls(controls: Option<Controls>, perms: Option<Permissions>): (v: Controls)
    ensures v.microphone.Some? && v.camera.Some? && v.screenShare.Some? && v.leave.Some?
    ensures perms.None? ==> v.chat == Some(false)
    ensures Shown(v.chat) ==> Given(controls).chat == Some(true)
  {
    var given := Given(controls);
    var leave := Coalesce(given.leave, true);
    match perms
    case None => Controls(Some(false), Some(false), Some(false), Some(false), leave)
    case Some(p) =>
      Controls(
        Coalesce(given.microphone, CanPublishSource(p, Microphone)),
        Coalesce(given.camera, CanPublishSource(p, Camera)),
        if given.chat.Some? then given.chat else AndAlso(p.canPublishData, given.chat),
        Coalesce(given.screenShare, CanPublishSource(p, ScreenShare)),
        leave)
  }

  /**
   * `visibleControls` as the component builds it: the spread with `leave: true` first, then
   * either the four assignments to false or the four `??=` fills.
   */
  method BuildVisibleControls(controls: Option<Controls>, perms: Option<Permissions>) returns (v: Controls)
    ensures v == VisibleControls(controls, perms)
  {
    var given := Given(controls);
    v := Controls(given.microphone, given.camera, given.chat, given.screenShare, Some(true));
    if given.leave.Some? {
      v := v.(leave := given.leave);
    }
    if perms.None? {
      v := v.(camera := Some(false));
      v := v.(chat := Some(false));
      v := v.(microphone := Some(false));
      v := v.(screenShare := Some(false));
    } else {
      var p := perms.value;
      if v.camera.None? {
        v := v.(camera := Some(CanPublishSource(p, Camera)));
      }
      if v.microphone.None? {
        v := v.(microphone := Some(CanPublishSource(p, Microphone)));
      }
      if v.screenShare.None? {
        v := v.(screenShare := Some(CanPublishSource(p, ScreenShare)));
      }
      if v.chat.None? {
        v := v.(chat := AndAlso(p.canPublishData, given.chat));
      }
    }
  }

  /** The leave button is shown unless the caller hides it explicitly. */
  lemma LeaveShownByDefault(controls: Option<Controls>, perms: Option<Permissions>)
    ensures Shown(VisibleControls(controls, perms).leave) <==> Given(controls).leave != Some(false)
  {
    assert VisibleControls(controls, perms).leave == Coalesce(Given(controls).leave, true);
    match Given(controls).leave
    case None =>
    case Some(b) =>
  }

  /** Without permissions no media or chat button is shown, whatever the caller asked for. */
  lemma NoPermissionsHidesMedia(controls: Option<Controls>)
    ensures var v := VisibleControls(controls, None);
      !Shown(v.camera) && !Shown(v.chat) && !Shown(v.microphone) && !Shown(v.screenShare)
  {
  }

  /**
   * With permissions every value the caller gave is kept, and only the absent ones are
   * filled: the media buttons from `canPublishSource`.
   */
  lemma ExplicitValuesKept(controls: Option<Controls>, p: Permissions)
    ensures var given, v := Given(controls), VisibleControls(controls, Some(p));
      (given.microphone.Some? ==> v.microphone == given.microphone)
      && (given.camera.Some? ==> v.camera == given.camera)
      && (given.chat.Some? ==> v.chat == given.chat)
      && (given.screenShare.Some? ==> v.screenShare == given.screenShare)
      && (given.leave.Some? ==> v.leave == given.leave)
      && (given.microphone.None? ==> (Shown(v.microphone) <==> CanPublishSource(p, Microphone)))
      && (given.camera.None? ==> (Shown(v.camera) <==> CanPublishSource(p, Camera)))
      && (given.screenShare.None? ==> (Shown(v.screenShare) <==> CanPublishSource(p, ScreenShare)))
  {
  }

  /**
   * The chat button is shown exactly when there are permissions and the caller asked for it:
   * the fill `canPublishData && controls.chat` only runs when `controls.chat` is absent, so it
   * can only give false or nothing.
   */
  lemma ChatShownOnlyIfRequested(controls: Option<Controls>, perms: Option<Permissions>)
    ensures Shown(VisibleControls(controls, perms).chat) <==> perms.Some? && Shown(Given(controls).chat)
  {
  }

  // ---------------------------------------------------------------------------
  // Variation

  datatype Variation = Minimal | Verbose | TextOnly

  /** `variation ??= 'minimal'`. */
  function EffectiveVariation(variation: Option<Variation>): (v: Variation)
    ensures variation.Some? ==> v == variation.value
    ensures variation.None? ==> v == Minimal
  {
    if variation.Some? then variation.value else Minimal
  }

  function ShowIcon(v: Variation): (b: bool)
    ensures b <==> v != TextOnly
  {
    v == Minimal || v == Verbose
  }

  function ShowText(v: Variation): (b: bool)
    ensures b <==> v != Minimal
  {
    v == TextOnly || v == Verbose
  }

  /**
   * Every variation shows icons or text or both; only `verbose` shows both; with no variation
   * given, buttons carry icons and no text.
   */
  lemma VariationFlags(variation: Option<Variation>)
    ensures var v := EffectiveVariation(variation);
      (ShowIcon(v) || ShowText(v))
      && (ShowIcon(v) && ShowText(v) <==> v == Verbose)
      && (variation.None? ==> ShowIcon(v) && !ShowText(v))
  {
  }

  // ---------------------------------------------------------------------------
  // Rendering

  datatype Button = MicrophoneToggle | CameraToggle | ScreenShareToggle | ChatToggle | LeaveButton | StartMediaButton

  /** The position of a button in the bar's markup. */
  function Rank(b: Button): nat {
    match b
    case MicrophoneToggle => 0
    case CameraToggle => 1
    case ScreenShareToggle => 2
    case ChatToggle => 3
    case LeaveButton => 4
    case StartMediaButton => 5
  }

  /** Every button in markup order. */
  const Markup: seq<Button> :=
    [MicrophoneToggle, CameraToggle, ScreenShareToggle, ChatToggle, LeaveButton, StartMediaButton]

  /** The guard in front of each button; screen share also needs the browser to capture the screen. */
  function Rendered(b: Button, v: Controls, screenSharingSupported: bool): (r: bool)
    ensures b == MicrophoneToggle ==> (r <==> Shown(v.microphone))
    ensures b == CameraToggle ==> (r <==> Shown(v.camera))
    ensures b == ScreenShareToggle ==> (r <==> Shown(v.screenShare) && screenSharingSupported)
    ensures b == ChatToggle ==> (r <==> Shown(v.chat))
    ensures b == LeaveButton ==> (r <==> Shown(v.leave))
    ensures b == StartMediaButton ==> r
    ensures b != StartMediaButton && r ==> v != NoControls
  {
    match b
    case MicrophoneToggle => Shown(v.microphone)
    case CameraToggle => Shown(v.camera)
    case ScreenShareToggle => Shown(v.screenShare) && screenSharingSupported
    case ChatToggle => Shown(v.chat)
    case LeaveButton => Shown(v.leave)
    case StartMediaButton => true
  }

  predicate InRankOrder(bs: seq<Button>) {
    forall i, j :: 0 <= i < j < |bs| ==> Rank(bs[i]) < Rank(bs[j])
  }

  /** The buttons of `bs` that are rendered, in the order of `bs`. */
  function Keep(bs: seq<Button>, v: Controls, screenSharingSupported: bool): (r: seq<Button>)
    ensures forall b :: b in r <==> b in bs && Rendered(b, v, screenSharingSupported)
    ensures InRankOrder(bs) ==> InRankOrder(r)
  {
    if bs == [] then []
    else
      var rest := Keep(bs[1..], v, screenSharingSupported);
      assert forall b :: b in bs <==> b == bs[0] || b in bs[1..];
      if Rendered(bs[0], v, screenSharingSupported) then
        HeadRanksFirst(bs, rest);
        [bs[0]] + rest
      else rest
  }

  /** In a list in rank order the head ranks below every later element. */
  lemma HeadRanksFirst(bs: seq<Button>, rest: seq<Button>)
    requires bs != [] && forall b :: b in rest ==> b in bs[1..]
    ensures InRankOrder(bs) && InRankOrder(rest) ==> InRankOrder([bs[0]] + rest)
  {
    if InRankOrder(bs) && InRankOrder(rest) {
      forall i, j | 0 <= i < j < |[bs[0]] + rest|
        ensures Rank(([bs[0]] + rest)[i]) < Rank(([bs[0]] + rest)[j])
      {
        if i == 0 {
          var b := rest[j - 1];
          assert b in bs[1..];
          var k :| 0 <= k < |bs[1..]| && bs[1..][k] == b;
          assert bs[k + 1] == b;
        }
      }
    }
  }

  /** The markup lists the buttons by rank. */
  lemma MarkupInRankOrder()
    ensures InRankOrder(Markup)
  {
    forall i, j | 0 <= i < j < |Markup|
      ensures Rank(Markup[i]) < Rank(Markup[j])
    {
      assert Rank(Markup[i]) == i && Rank(Markup[j]) == j;
    }
  }

  /** The markup holds every button. */
  lemma MarkupComplete(b: Button)
    ensures b in Markup
  {
    match b
    case MicrophoneToggle => assert Markup[0] == b;
    case CameraToggle => assert Markup[1] == b;
    case ScreenShareToggle => assert Markup[2] == b;
    case ChatToggle => assert Markup[3] == b;
    case LeaveButton => assert Markup[4] == b;
    case StartMediaButton => assert Markup[5] == b;
  }

  /**
   * The buttons of the bar, in order: microphone, camera, screen share (only where the
   * browser can capture the screen), chat, leave, and always the start-media button, last.
   */
  function Buttons(v: Controls, screenSharingSupported: bool): (bs: seq<Button>)
    ensures forall b :: b in bs <==> Rendered(b, v, screenSharingSupported)
    ensures InRankOrder(bs)
    ensures |bs| >= 1 && bs[|bs| - 1] == StartMediaButton
  {
    MarkupInRankOrder();
    var bs := Keep(Markup, v, screenSharingSupported);
    assert forall b :: b in bs <==> Rendered(b, v, screenSharingSupported) by {
      forall b: Button { MarkupComplete(b); }
    }
    StartMediaLast(bs);
    bs
  }

  /**
   * Without permissions (not connected yet) the bar holds at most the leave button and the
   * start-media button, whatever the `controls` prop asks for.
   */
  lemma NoPermissionsOnlyLeave(controls: Option<Controls>, screenSharingSupported: bool)
    ensures var bs := Buttons(VisibleControls(controls, None), screenSharingSupported);
      forall i :: 0 <= i < |bs| ==> bs[i] == LeaveButton || bs[i] == StartMediaButton
  {
  }

  /** In rank order, the start-media button, when present, is last. */
  lemma StartMediaLast(bs: seq<Button>)
    requires InRankOrder(bs) && StartMediaButton in bs
    ensures |bs| >= 1 && bs[|bs| - 1] == StartMediaButton
  {
    var k :| 0 <= k < |bs| && bs[k] == StartMediaButton;
    if k < |bs| - 1 {
      assert Rank(bs[k]) < Rank(bs[|bs| - 1]);
    }
  }

  /** The text of a button: none unless the variation shows text; the screen-share text follows its state. */
  function Label(b: Button, variation: Variation, screenShareEnabled: bool): (text: Option<string>)
    ensures text.Some? <==> ShowText(variation) && b != StartMediaButton
    ensures b == ScreenShareToggle && text.Some? ==>
      text.value == (if screenShareEnabled then "Stop screen share" else "Share screen")
  {
    if !ShowText(variation) then None
    else
      match b
      case MicrophoneToggle => Some("Microphone")
      case CameraToggle => Some("Camera")
      case ScreenShareToggle => Some(if screenShareEnabled then "Stop screen share" else "Share screen")
      case ChatToggle => Some("Chat")
      case LeaveButton => Some("Leave")
      case StartMediaButton => None
  }

  /** `isChatOpen` after the layout's `showChat` changes: it follows a defined value and keeps its own otherwise. */
  function SyncChatOpen(isChatOpen: bool, showChat: Option<bool>): (open: bool)
    ensures showChat.Some? ==> open == showChat.value
    ensures showChat.None? ==> open == isChatOpen
  {
    if showChat.Some? then showChat.value else isChatOpen
  }

  /** The chat button's icon: filled while the chat is open. */
  function ChatIcon(isChatOpen: bool): (icon: string)
    ensures icon == "ri:chat-4-fill" <==> isChatOpen
  {
    if isChatOpen then "ri:chat-4-fill" else "ri:chat-off-fill"
  }
}
