/** The root layout's auth gate: on every change of the sign-in state or the
    route, decide whether to replace the current route. The call to
    `router.replace` is modelled by the returned `Redirect`. */
module AuthGate {

  /** What the effect does: nothing, or replace the route with a target. */
  datatype Redirect = Stay | ToTabs | ToSignIn

  const TabsGroup: string := "(tabs)"
  const AuthGroup: string := "(auth)"

  /** `segments[0] === group`; an empty route has no first segment
      (`undefined`), which equals no group. */
  predicate InGroup(segments: seq<string>, group: string) {
    |segments| > 0 && segments[0] == group
  }

  /** The decision taken by the layout's effect. */
  function RedirectTarget(isLoaded: bool, isSignedIn: bool, segments: seq<string>): (r: Redirect)
    ensures !isLoaded ==> r == Stay
    ensures r == ToTabs <==> isLoaded && isSignedIn && !InGroup(segments, "(tabs)")
    ensures r == ToSignIn <==> isLoaded && !isSignedIn && !InGroup(segments, "(auth)")
    ensures r == Stay <==>
      !isLoaded || (isSignedIn && InGroup(segments, "(tabs)")) || (!isSignedIn && InGroup(segments, "(auth)"))
  {
    if !isLoaded then Stay
    else
      var inTabsGroup := InGroup(segments, TabsGroup);
      var inAuthGroup := InGroup(segments, AuthGroup);
      if isSignedIn && !inTabsGroup then ToTabs
      else if !isSignedIn && !inAuthGroup then ToSignIn
      else Stay
  }

  /** The href passed to `router.replace`. */
  function Href(r: Redirect): string
    requires r != Stay
  {
    if r == ToTabs then "/(tabs)" else "/(auth)/sign-in"
  }

  /** The route segments of a target once the router has navigated to it. */
  function TargetSegments(r: Redirect): (segs: seq<string>)
    requires r != Stay
    ensures |segs| > 0
  {
    if r == ToTabs then [TabsGroup] else [AuthGroup, "sign-in"]
  }

  /** An href written as "/" followed by its segments separated by "/". */
  function HrefOf(segments: seq<string>): string
    decreases |segments|
  {
    if segments == [] then "" else "/" + segments[0] + HrefOf(segments[1..])
  }

  /** The href passed to the router is exactly the path of the target's segments. */
  lemma HrefMatchesSegments(r: Redirect)
    requires r != Stay
    ensures Href(r) == HrefOf(TargetSegments(r))
  {
    var segs := TargetSegments(r);
    if r == ToTabs {
      assert HrefOf(segs[1..]) == "";
    } else {
      assert HrefOf(segs[1..][1..]) == "";
      assert HrefOf(segs[1..]) == "/sign-in";
    }
  }

  /** Once the router has moved to the chosen target, evaluating the effect
      again with the same auth state redirects no further, whatever follows
      the group segment. */
  lemma RedirectSettles(isLoaded: bool, isSignedIn: bool, segments: seq<string>, rest: seq<string>)
    requires RedirectTarget(isLoaded, isSignedIn, segments) != Stay
    ensures RedirectTarget(isLoaded, isSignedIn,
              [TargetSegments(RedirectTarget(isLoaded, isSignedIn, segments))[0]] + rest) == Stay
  {
  }

  /** A signed-in user is sent to the tabs group, a signed-out user to the
      sign-in screen: the target always leads to the group the state calls for. */
  lemma TargetMatchesAuthState(isLoaded: bool, isSignedIn: bool, segments: seq<string>)
    requires RedirectTarget(isLoaded, isSignedIn, segments) != Stay
    ensures isSignedIn ==> TargetSegments(RedirectTarget(isLoaded, isSignedIn, segments)) == ["(tabs)"]
    ensures !isSignedIn ==>
      TargetSegments(RedirectTarget(isLoaded, isSignedIn, segments)) == ["(auth)", "sign-in"]
  {
  }

  /** An empty route (no first segment) always redirects once loaded. */
  lemma EmptyRouteRedirects(isSignedIn: bool)
    ensures RedirectTarget(true, isSignedIn, []) == (if isSignedIn then ToTabs else ToSignIn)
  {
  }
}
