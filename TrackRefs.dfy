/**
 * References to media tracks in the conference: a reference to a published track, or a
 * placeholder for a participant's source that has no publication. The classifiers, the
 * id scheme, equality, pin membership and the placeholder-replacement test.
 */
module TrackRefs {
  import opened Wrappers
  import opened Decimal

  /** The media SDK's track sources. */
  datatype Source = Camera | Microphone | ScreenShare | ScreenShareAudio | Unknown

  /** The text a source stands for inside an id (the SDK's string enumeration values). */
  function SourceName(s: Source): string {
    match s
    case Camera => "camera"
    case Microphone => "microphone"
    case ScreenShare => "screen_share"
    case ScreenShareAudio => "screen_share_audio"
    case Unknown => "unknown"
  }

  datatype Participant = Participant(identity: string)

  /** A track publication: its server id, its source, whether a track object is attached, and subscription. */
  datatype Publication = Publication(trackSid: string, source: Source, hasTrack: bool, isSubscribed: bool)

  /**
   * `TrackReferenceOrPlaceholder`. A reference always has a publication; a placeholder never
   * does. `hasTrackProperty` records whether the reference object carries an own `track`
   * property, which the subscribed check looks for.
   */
  datatype TrackRefOrPlaceholder =
    | TrackReference(participant: Participant, publication: Publication, source: Source, hasTrackProperty: bool)
    | Placeholder(participant: Participant, source: Source)

  function Identity(t: TrackRefOrPlaceholder): string {
    t.participant.identity
  }

  // ---------------------------------------------------------------------------
  // Classifiers; `None` is `undefined`

  /** A reference with an own `track` property whose publication has a track attached. */
  function IsTrackReferenceSubscribed(r: Option<TrackRefOrPlaceholder>): (b: bool)
    ensures b ==> r.Some? && r.value.TrackReference? && r.value.publication.hasTrack
    ensures r.None? || r.value.Placeholder? ==> !b
  {
    r.Some? && r.value.TrackReference? && r.value.hasTrackProperty && r.value.publication.hasTrack
  }

  /** A defined value that carries a publication. */
  function IsTrackReferencePublished(r: Option<TrackRefOrPlaceholder>): (b: bool)
    ensures r.None? ==> !b
    ensures r.Some? ==> (b <==> !r.value.Placeholder?)
  {
    r.Some? && r.value.TrackReference?
  }

  /** Subscribed or published; since every subscribed value is published, exactly the values with a publication. */
  function IsTrackReference(r: Option<TrackRefOrPlaceholder>): (b: bool)
    ensures b <==> r.Some? && r.value.TrackReference?
    ensures b <==> IsTrackReferencePublished(r)
  {
    if r.None? then false else IsTrackReferenceSubscribed(r) || IsTrackReferencePublished(r)
  }

  /** A defined value without a publication. */
  function IsTrackReferencePlaceholder(r: Option<TrackRefOrPlaceholder>): (b: bool)
    ensures r.None? ==> !b
    ensures r.Some? ==> (b <==> !IsTrackReferencePublished(r))
  {
    r.Some? && r.value.Placeholder?
  }

  /**
   * `undefined` is neither kind; a defined value is a track reference exactly when it has a
   * publication and a placeholder exactly when it has none, so it is always one of the two
   * and never both.
   */
  lemma Classification(r: Option<TrackRefOrPlaceholder>)
    ensures r.None? ==> !IsTrackReference(r) && !IsTrackReferencePlaceholder(r)
    ensures IsTrackReferenceSubscribed(r) ==> IsTrackReferencePublished(r)
    ensures r.Some? ==> (IsTrackReference(r) <==> r.value.TrackReference?)
    ensures r.Some? ==> (IsTrackReferencePlaceholder(r) <==> r.value.Placeholder?)
    ensures r.Some? ==> (IsTrackReference(r) <==> !IsTrackReferencePlaceholder(r))
  {
  }

  // ---------------------------------------------------------------------------
  // Source and id

  /** `getTrackReferenceSource`: the publication's source for a reference, the own source otherwise. */
  function GetTrackReferenceSource(t: TrackRefOrPlaceholder): (s: Source)
    ensures t.TrackReference? ==> s == t.publication.source
    ensures t.Placeholder? ==> s == t.source
  {
    if IsTrackReference(Some(t)) then t.publication.source else t.source
  }

  /**
   * The safe integers, of magnitude at most 2^53 - 1: a double holds them exactly and
   * JavaScript writes them as their plain decimal digits.
   */
  type PlainInteger = n: int | -9_007_199_254_740_991 <= n <= 9_007_199_254_740_991

  /** A character of a number's JavaScript text: digits, sign, point, exponent, `NaN`, `Infinity`. */
  predicate IsNumberTextChar(c: char) {
    IsDigit(c) || c in "-+.eNaIfinty"
  }

  type NumberText = s: string | forall i :: 0 <= i < |s| ==> IsNumberTextChar(s[i]) witness "NaN"

  /**
   * A JavaScript number: a safe integer, written in its plain digits, or any other number (a
   * fraction, `NaN`, an infinity, or an integer of magnitude 2^53 or more) with the text the
   * engine's number-to-string conversion gives it ("0.5", "NaN", "18446744073709552000",
   * "1e+21").
   */
  datatype JsNumber = Integer(n: PlainInteger) | OtherNumber(text: NumberText)

  /** The argument of `getTrackReferenceId`: a number or a reference. */
  datatype IdInput = NumberId(num: JsNumber) | RefId(ref: TrackRefOrPlaceholder)

  /**
   * `getTrackReferenceId`: a number's text; `identity_source_placeholder` for a
   * placeholder; `identity_source_trackSid` for a reference. The error branch for a value
   * of neither shape is unreachable for these two shapes.
   */
  function GetTrackReferenceId(x: IdInput): (id: string)
    ensures x.NumberId? && x.num.Integer? && x.num.n >= 0 ==> AllDigits(id) && DigitsValue(id) == x.num.n
    ensures x.NumberId? && x.num.Integer? && x.num.n < 0 ==>
      |id| > 1 && id[0] == '-' && AllDigits(id[1..]) && DigitsValue(id[1..]) == -x.num.n
    ensures x.NumberId? && x.num.OtherNumber? ==> id == x.num.text
    ensures x.RefId? ==> '_' in id
  {
    match x
    case NumberId(Integer(n)) =>
      NatToStringRoundTrip(if n >= 0 then n else -n);
      IntToString(n)
    case NumberId(OtherNumber(text)) => text
    case RefId(t) =>
      var id :=
        if IsTrackReferencePlaceholder(Some(t)) then
          t.participant.identity + "_" + SourceName(t.source) + "_placeholder"
        else if IsTrackReference(Some(t)) then
          t.participant.identity + "_" + SourceName(t.publication.source) + "_" + t.publication.trackSid
        else
          assert false; "";
      assert id[|t.participant.identity|] == '_';
      id
  }

  function RefIdOf(t: TrackRefOrPlaceholder): string {
    GetTrackReferenceId(RefId(t))
  }

  /**
   * Both id shapes are identity, the source `getTrackReferenceSource` reports, and a last
   * segment: the track sid of a reference or the word "placeholder".
   */
  lemma {:induction false} RefIdShape(t: TrackRefOrPlaceholder)
    ensures RefIdOf(t) == Identity(t) + "_" + SourceName(GetTrackReferenceSource(t)) + "_"
      + (if t.TrackReference? then t.publication.trackSid else "placeholder")
  {
  }

  /** A number's id never has an underscore, so it never equals the id of a reference. */
  lemma NumberIdIsNotRefId(num: JsNumber, t: TrackRefOrPlaceholder)
    ensures '_' !in GetTrackReferenceId(NumberId(num))
    ensures GetTrackReferenceId(NumberId(num)) != RefIdOf(t)
  {
    var id := GetTrackReferenceId(NumberId(num));
    match num
    case OtherNumber(text) =>
      assert forall i :: 0 <= i < |id| ==> IsNumberTextChar(id[i]) && id[i] != '_';
    case Integer(n) =>
      if n >= 0 {
        assert forall i :: 0 <= i < |id| ==> id[i] != '_';
      } else {
        assert id[0] != '_';
        assert forall i :: 1 <= i < |id| ==> id[1..][i - 1] == id[i] && id[i] != '_';
      }
  }

  // ---------------------------------------------------------------------------
  // Equality

  /**
   * `isEqualTrackRef`: never equal to `undefined`; two references are equal when their
   * track sids are; anything else is compared by id.
   */
  function IsEqualTrackRef(a: Option<TrackRefOrPlaceholder>, b: Option<TrackRefOrPlaceholder>): (eq: bool)
    ensures a.None? || b.None? ==> !eq
    ensures IsTrackReference(a) && IsTrackReference(b) ==>
      (eq <==> a.value.publication.trackSid == b.value.publication.trackSid)
    ensures a.Some? && b.Some? && a.value == b.value ==> eq
  {
    if a.None? || b.None? then false
    else if IsTrackReference(a) && IsTrackReference(b) then
      a.value.publication.trackSid == b.value.publication.trackSid
    else
      RefIdOf(a.value) == RefIdOf(b.value)
  }

  lemma IsEqualTrackRefSymmetric(a: Option<TrackRefOrPlaceholder>, b: Option<TrackRefOrPlaceholder>)
    ensures IsEqualTrackRef(a, b) == IsEqualTrackRef(b, a)
  {
  }

  /** Source names are distinct. */
  lemma SourceNameInjective(s1: Source, s2: Source)
    requires SourceName(s1) == SourceName(s2)
    ensures s1 == s2
  {
  }

  /** No source name ends in an underscore followed by another, shorter, source name. */
  lemma SourceNamesSuffixFree(s1: Source, s2: Source)
    requires |SourceName(s1)| < |SourceName(s2)|
    ensures SourceName(s2)[|SourceName(s2)| - |SourceName(s1)| - 1..] != "_" + SourceName(s1)
  {
    var n1, n2 := SourceName(s1), SourceName(s2);
    var k := |n2| - |n1| - 1;
    assert n2[k] != '_' by {
      match s1
      case Camera =>
      case Unknown =>
      case Microphone =>
      case ScreenShare =>
      case ScreenShareAudio =>
    }
    assert n2[k..][0] == n2[k];
  }

  /** Of two equal concatenations, the longer tail ends with the shorter one. */
  lemma SuffixOfEqual(x: string, u: string, y: string, v: string)
    requires x + u == y + v && |u| <= |v|
    ensures v[|v| - |u|..] == u
  {
    var w := x + u;
    assert w[|w| - |u|..] == u;
    assert w[|w| - |u|..] == v[|v| - |u|..];
  }

  /** Removing an equal-length suffix from equal texts leaves equal texts. */
  lemma PrefixesOfEqual(x: string, y: string, u: string, v: string)
    requires x + u == y + v && |u| == |v|
    ensures x == y && u == v
  {
    assert x == (x + u)[..|x|] && y == (y + v)[..|y|];
    assert u == (x + u)[|x|..] && v == (y + v)[|y|..];
  }

  /** `identity_name` texts whose source names differ in length are different. */
  lemma ShorterNameDiffers(i1: string, s1: Source, i2: string, s2: Source)
    requires |SourceName(s1)| < |SourceName(s2)|
    ensures i1 + ("_" + SourceName(s1)) != i2 + ("_" + SourceName(s2))
  {
    SourceNamesSuffixFree(s1, s2);
    ShorterTailDiffers(i1, SourceName(s1), i2, SourceName(s2));
  }

  /** Texts ending in `_n1` and `_n2` differ when `n2` does not end in `_n1`. */
  lemma ShorterTailDiffers(i1: string, n1: string, i2: string, n2: string)
    requires |n1| < |n2| && n2[|n2| - |n1| - 1..] != "_" + n1
    ensures i1 + ("_" + n1) != i2 + ("_" + n2)
  {
    if i1 + ("_" + n1) == i2 + ("_" + n2) {
      SuffixOfEqual(i1, "_" + n1, i2, "_" + n2);
      assert false;
    }
  }

  /** `identity_name` determines the identity and the source. */
  lemma IdentitySourceInjective(i1: string, s1: Source, i2: string, s2: Source)
    requires i1 + ("_" + SourceName(s1)) == i2 + ("_" + SourceName(s2))
    ensures i1 == i2 && s1 == s2
  {
    var n1, n2 := SourceName(s1), SourceName(s2);
    if |n1| < |n2| {
      ShorterNameDiffers(i1, s1, i2, s2);
    } else if |n2| < |n1| {
      ShorterNameDiffers(i2, s2, i1, s1);
    } else {
      PrefixesOfEqual(i1, i2, "_" + n1, "_" + n2);
      assert n1 == ("_" + n1)[1..] == ("_" + n2)[1..] == n2;
      SourceNameInjective(s1, s2);
    }
  }

  /** Two placeholders are equal exactly when they share the participant identity and the source. */
  lemma PlaceholderEquality(a: TrackRefOrPlaceholder, b: TrackRefOrPlaceholder)
    requires a.Placeholder? && b.Placeholder?
    ensures IsEqualTrackRef(Some(a), Some(b)) <==> Identity(a) == Identity(b) && a.source == b.source
  {
    if IsEqualTrackRef(Some(a), Some(b)) {
      var x := Identity(a) + ("_" + SourceName(a.source));
      var y := Identity(b) + ("_" + SourceName(b.source));
      PlaceholderIdForm(a);
      PlaceholderIdForm(b);
      assert x + "_placeholder" == y + "_placeholder";
      PrefixesOfEqual(x, y, "_placeholder", "_placeholder");
      IdentitySourceInjective(Identity(a), a.source, Identity(b), b.source);
    }
  }

  /** A placeholder's id is its `identity_source` text followed by "_placeholder". */
  lemma PlaceholderIdForm(a: TrackRefOrPlaceholder)
    requires a.Placeholder?
    ensures RefIdOf(a) == Identity(a) + ("_" + SourceName(a.source)) + "_placeholder"
  {
    assert RefIdOf(a) == Identity(a) + "_" + SourceName(a.source) + "_placeholder";
  }

  /**
   * A placeholder and a reference from the same participant and source compare equal when
   * the reference's track sid is the text "placeholder".
   */
  lemma PlaceholderMatchesSidNamedPlaceholder(p: Participant, s: Source, pub: Publication, own: bool)
    requires pub.trackSid == "placeholder" && pub.source == s
    ensures IsEqualTrackRef(Some(Placeholder(p, s)), Some(TrackReference(p, pub, s, own)))
  {
    RefIdShape(Placeholder(p, s));
    RefIdShape(TrackReference(p, pub, s, own));
  }

  // ---------------------------------------------------------------------------
  // Pins

  /** Whether one entry of the pin state pins `t` (the predicate `isTrackReferencePinned` passes to `some`). */
  function PinMatches(pin: TrackRefOrPlaceholder, t: TrackRefOrPlaceholder): (m: bool)
    ensures m ==> Identity(pin) == Identity(t) && (pin.TrackReference? <==> t.TrackReference?)
    ensures m && t.TrackReference? ==> pin.publication.trackSid == t.publication.trackSid
    ensures m && t.Placeholder? ==> pin.source == t.source
    ensures pin == t ==> m
  {
    if IsTrackReference(Some(t)) then
      Identity(pin) == Identity(t) && IsTrackReference(Some(pin))
      && pin.publication.trackSid == t.publication.trackSid
    else if IsTrackReferencePlaceholder(Some(t)) then
      Identity(pin) == Identity(t) && IsTrackReferencePlaceholder(Some(pin))
      && pin.source == t.source
    else false
  }

  /** `pins.some(pin => PinMatches(pin, t))`. */
  function AnyPinMatches(pins: seq<TrackRefOrPlaceholder>, t: TrackRefOrPlaceholder): (found: bool)
    ensures found <==> exists i :: 0 <= i < |pins| && PinMatches(pins[i], t)
  {
    if pins == [] then false
    else if PinMatches(pins[0], t) then true
    else
      var found := AnyPinMatches(pins[1..], t);
      assert found <==> exists i :: 1 <= i < |pins| && PinMatches(pins[i], t) by {
        if found {
          var i :| 0 <= i < |pins[1..]| && PinMatches(pins[1..][i], t);
          assert PinMatches(pins[i + 1], t);
        }
        if exists i :: 1 <= i < |pins| && PinMatches(pins[i], t) {
          var i :| 1 <= i < |pins| && PinMatches(pins[i], t);
          assert PinMatches(pins[1..][i - 1], t);
        }
      }
      found
  }

  /**
   * `isTrackReferencePinned`: never with an undefined pin state; a reference is pinned when
   * some pinned reference has its identity and track sid, a placeholder when some pinned
   * placeholder has its identity and source.
   */
  function IsTrackReferencePinned(t: TrackRefOrPlaceholder, pinState: Option<seq<TrackRefOrPlaceholder>>): (pinned: bool)
    ensures pinState.None? ==> !pinned
    ensures pinState.Some? && t.TrackReference? ==> (pinned <==>
      exists i :: 0 <= i < |pinState.value| && pinState.value[i].TrackReference?
        && Identity(pinState.value[i]) == Identity(t)
        && pinState.value[i].publication.trackSid == t.publication.trackSid)
    ensures pinState.Some? && t.Placeholder? ==> (pinned <==>
      exists i :: 0 <= i < |pinState.value| && pinState.value[i].Placeholder?
        && Identity(pinState.value[i]) == Identity(t)
        && pinState.value[i].source == t.source)
  {
    if pinState.None? then false
    else AnyPinMatches(pinState.value, t)
  }

  /** A reference or placeholder that is itself in the pin state is pinned. */
  lemma PinnedWhenInPinState(t: TrackRefOrPlaceholder, pins: seq<TrackRefOrPlaceholder>)
    requires t in pins
    ensures IsTrackReferencePinned(t, Some(pins))
  {
    var i :| 0 <= i < |pins| && pins[i] == t;
    assert PinMatches(pins[i], t);
  }

  // ---------------------------------------------------------------------------
  // Placeholder replacement

  /**
   * `isPlaceholderReplacement`: `next` is the track that fills the placeholder `current`:
   * `current` is a placeholder, `next` a reference, and they share identity and source.
   */
  function IsPlaceholderReplacement(current: TrackRefOrPlaceholder, next: TrackRefOrPlaceholder): (r: bool)
    ensures r <==> (current.Placeholder? && next.TrackReference?
      && Identity(next) == Identity(current) && next.source == current.source)
  {
    IsTrackReferencePlaceholder(Some(current)) && IsTrackReference(Some(next))
    && next.participant.identity == current.participant.identity
    && next.source == current.source
  }
}
