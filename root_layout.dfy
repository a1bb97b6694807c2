/** The root layout's navigation guard: where it sends the app once the
    stored session has been looked up, and where it sends it on an
    authentication event, given the first segment of the current route. */
module RootLayout {
  import opened Wrappers

  /** A signed-in session; only its presence matters to the guard. */
  datatype Session = Session(userId: string)

  /** `SIGNED_IN`, `SIGNED_OUT`, or any other event kind. */
  datatype AuthEvent = SignedIn | SignedOut | OtherEvent

  /** The two targets of `router.replace`. */
  datatype Route = Login | Tabs

  function Path(r: Route): (p: string) {
    match r
    case Login => "/auth/login"
    case Tabs => "/(tabs)"
  }

  /** The route segments once the app shows `r`. */
  function SegmentsAt(r: Route): (segments: seq<string>) {
    match r
    case Login => ["auth", "login"]
    case Tabs => ["(tabs)"]
  }

  /** The current view is inside the auth area when its first segment is
      "auth"; an empty segment list has no first segment and is outside. */
  predicate InAuthArea(segments: seq<string>)
    ensures segments == [] ==> !InAuthArea(segments)
    ensures InAuthArea(segments) ==> segments[0] == "auth"
  {
    |segments| > 0 && segments[0] == "auth"
  }

  /** The guard's goal: a signed-in user is outside the auth area and a
      signed-out user is inside it. */
  predicate Settled(signedIn: bool, segments: seq<string>) {
    signedIn <==> !InAuthArea(segments)
  }

  /** The decision once the session lookup resolves (a failed lookup yields
      no session): to the login page when signed out outside the auth area,
      to the tabs when signed in inside it, otherwise nowhere. */
  function StartupRedirect(session: Option<Session>, segments: seq<string>): (r: Option<Route>)
    ensures r == Some(Login) <==> session == None && !InAuthArea(segments)
    ensures r == Some(Tabs) <==> session != None && InAuthArea(segments)
  {
    if session == None && !InAuthArea(segments) then Some(Login)
    else if session != None && InAuthArea(segments) then Some(Tabs)
    else None
  }

  /** The decision on an authentication event: to the tabs on a sign-in
      inside the auth area, to the login page on a sign-out outside it,
      otherwise nowhere. The session passed with the event is not consulted. */
  function EventRedirect(event: AuthEvent, session: Option<Session>, segments: seq<string>): (r: Option<Route>)
    ensures r == Some(Tabs) <==> event == SignedIn && InAuthArea(segments)
    ensures r == Some(Login) <==> event == SignedOut && !InAuthArea(segments)
    ensures event.OtherEvent? ==> r == None
  {
    if event == SignedIn && InAuthArea(segments) then Some(Tabs)
    else if event == SignedOut && !InAuthArea(segments) then Some(Login)
    else None
  }

  /** The startup decision redirects exactly when the view is not where the
      session state says it should be. */
  lemma StartupRedirectsIffUnsettled(session: Option<Session>, segments: seq<string>)
    ensures StartupRedirect(session, segments) == None <==> Settled(session != None, segments)
  {
  }

  /** Following a startup redirect settles the view, so re-running the
      decision (the effect runs again when the segments change) with the same
      session state redirects no further. */
  lemma StartupRedirectIsStable(session: Option<Session>, segments: seq<string>)
    requires StartupRedirect(session, segments) != None
    ensures Settled(session != None, SegmentsAt(StartupRedirect(session, segments).value))
    ensures StartupRedirect(session, SegmentsAt(StartupRedirect(session, segments).value)) == None
  {
  }

  /** The event handler never looks at the session it is given. */
  lemma EventIgnoresSession(event: AuthEvent, s1: Option<Session>, s2: Option<Session>, segments: seq<string>)
    ensures EventRedirect(event, s1, segments) == EventRedirect(event, s2, segments)
  {
  }

  /** On a sign-in or sign-out the event handler decides as the startup
      check would for the session state the event leaves behind. */
  lemma EventAgreesWithStartup(event: AuthEvent, given: Option<Session>, after: Option<Session>, segments: seq<string>)
    requires event == SignedIn || event == SignedOut
    requires after != None <==> event == SignedIn
    ensures EventRedirect(event, given, segments) == StartupRedirect(after, segments)
  {
  }

  /** Following an event redirect settles the view for the session state the
      event leaves behind: neither the same event nor a fresh session lookup
      redirects again. */
  lemma EventRedirectIsStable(event: AuthEvent, given: Option<Session>, after: Option<Session>, segments: seq<string>)
    requires EventRedirect(event, given, segments) != None
    requires after != None <==> event == SignedIn
    ensures EventRedirect(event, given, SegmentsAt(EventRedirect(event, given, segments).value)) == None
    ensures StartupRedirect(after, SegmentsAt(EventRedirect(event, given, segments).value)) == None
  {
  }

  /** With no segments at all, the view counts as outside the auth area. */
  lemma EmptySegmentsAreOutsideAuth(s: Session, given: Option<Session>)
    ensures StartupRedirect(None, []) == Some(Login)
    ensures StartupRedirect(Some(s), []) == None
    ensures EventRedirect(SignedOut, given, []) == Some(Login)
    ensures EventRedirect(SignedIn, given, []) == None
  {
  }
}
