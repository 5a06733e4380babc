/** The application's route paths (`Page` in the web client's constants). */
module Pages {
  import opened Wrappers

  const SignUp: string := "/"
  const SignIn: string := "/sign-in"
  const Dashboard: string := "/dashboard"
  const MeetingHistory: string := "/meeting-history"

  /** Every path that `Meeting` builds starts with this text. */
  const MeetingPrefix: string := "/meeting/"

  /** `Page.Meeting(code)`: the path of the meeting room whose code is `code`. */
  function Meeting(code: string): (path: string)
    ensures |path| == |MeetingPrefix| + |code|
    ensures path[..|MeetingPrefix|] == MeetingPrefix && path[|MeetingPrefix|..] == code
  {
    MeetingPrefix + code
  }

  /**
   * The code a meeting path carries: the text after "/meeting/", as the `code`
   * route parameter the meeting page reads; `None` for any other path.
   */
  function MeetingCode(path: string): (code: Option<string>)
    ensures code.Some? ==> Meeting(code.value) == path
  {
    if |path| >= |MeetingPrefix| && path[..|MeetingPrefix|] == MeetingPrefix
    then Some(path[|MeetingPrefix|..])
    else None
  }

  /** Reading the code back from a meeting path gives the code it was built from. */
  lemma MeetingCodeRoundTrip(code: string)
    ensures MeetingCode(Meeting(code)) == Some(code)
  {
  }

  lemma MeetingInjective(code1: string, code2: string)
    requires Meeting(code1) == Meeting(code2)
    ensures code1 == code2
  {
    MeetingCodeRoundTrip(code1);
    MeetingCodeRoundTrip(code2);
  }

  /**
   * No meeting path is one of the static routes; in particular the character at
   * index 8 is '/' in a meeting path and '-' in "/meeting-history".
   */
  lemma MeetingIsNotStatic(code: string)
    ensures Meeting(code)[8] == '/' && MeetingHistory[8] == '-'
    ensures Meeting(code) != SignUp && Meeting(code) != SignIn
    ensures Meeting(code) != Dashboard && Meeting(code) != MeetingHistory
    ensures MeetingCode(SignUp) == MeetingCode(SignIn) == None
    ensures MeetingCode(Dashboard) == MeetingCode(MeetingHistory) == None
  {
    var p := Meeting(code);
    assert p[8] == MeetingPrefix[8] == '/';
    assert p[1] == 'm' != Dashboard[1];
    assert MeetingHistory[..|MeetingPrefix|] != MeetingPrefix by {
      assert MeetingHistory[8] == '-';
    }
    assert Dashboard[..|MeetingPrefix|] != MeetingPrefix by {
      assert Dashboard[1] == 'd';
    }
  }

  lemma StaticRoutesDistinct()
    ensures SignUp != SignIn && SignUp != Dashboard && SignUp != MeetingHistory
    ensures SignIn != Dashboard && SignIn != MeetingHistory
    ensures Dashboard != MeetingHistory
  {
  }
}
