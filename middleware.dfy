/** middleware.ts: the page guard. Protected admin pages need an
    admin_session cookie and protected participant pages a
    participant_session cookie; only the cookie's presence is looked at.
    Only paths under the four matcher bases reach the guard at all. */
module Middleware {
  import opened Db

  datatype Outcome = Next | Redirect(location: string)

  predicate StartsWith(s: string, prefix: string)
  {
    |prefix| <= |s| && s[..|prefix|] == prefix
  }

  predicate AdminPage(path: string)
  {
    StartsWith(path, "/admin/dashboard")
  }

  predicate ParticipantPage(path: string)
  {
    StartsWith(path, "/participant/waiting") || StartsWith(path, "/participant/quiz") ||
    StartsWith(path, "/participant/results")
  }

  /** A cookie is given as its value when present (possibly empty). */
  function Guard(path: string, adminCookie: Option<string>, participantCookie: Option<string>): (o: Outcome)
    ensures o == Redirect("/admin") <==> AdminPage(path) && adminCookie.None?
    ensures o == Redirect("/participant") <==> !(AdminPage(path) && adminCookie.None?) && ParticipantPage(path) && participantCookie.None?
    ensures o.Next? <==> !(AdminPage(path) && adminCookie.None?) && !(ParticipantPage(path) && participantCookie.None?)
  {
    if AdminPage(path) && adminCookie.None? then Redirect("/admin")
    else if ParticipantPage(path) && participantCookie.None? then Redirect("/participant")
    else Next
  }

  /** `base/:path*` in `config.matcher`: the base itself or the base followed
      by further segments. */
  predicate UnderBase(path: string, base: string)
  {
    path == base || StartsWith(path, base + "/")
  }

  lemma UnderBaseStartsWith(path: string, base: string)
    ensures UnderBase(path, base) ==> StartsWith(path, base)
  {
    if StartsWith(path, base + "/") {
      assert path[..|base|] == path[..|base| + 1][..|base|] == (base + "/")[..|base|] == base;
    }
  }

  /** The paths `config.matcher` hands to the middleware. */
  predicate Matched(path: string)
    ensures Matched(path) ==> AdminPage(path) || ParticipantPage(path)
  {
    UnderBaseStartsWith(path, "/admin/dashboard");
    UnderBaseStartsWith(path, "/participant/waiting");
    UnderBaseStartsWith(path, "/participant/quiz");
    UnderBaseStartsWith(path, "/participant/results");
    UnderBase(path, "/admin/dashboard") || UnderBase(path, "/participant/waiting") ||
    UnderBase(path, "/participant/quiz") || UnderBase(path, "/participant/results")
  }

  /** A request as the framework serves it: paths outside the matcher never
      reach the middleware; the others get its verdict. */
  function Serve(path: string, adminCookie: Option<string>, participantCookie: Option<string>): (o: Outcome)
    ensures !Matched(path) ==> o == Next
    ensures o == Redirect("/admin") <==> Matched(path) && AdminPage(path) && adminCookie.None?
    ensures o.Redirect? ==> Matched(path) && o == Guard(path, adminCookie, participantCookie)
  {
    if Matched(path) then Guard(path, adminCookie, participantCookie) else Next
  }

  /** The matcher is narrower than the prefix test: a path that only starts
      with a protected base, such as /admin/dashboardX, is served without
      the cookie even though the prefix test alone would redirect it. */
  lemma MatcherNarrowsPrefix()
    ensures Guard("/admin/dashboardX", None, None) == Redirect("/admin")
    ensures Serve("/admin/dashboardX", None, None) == Next
    ensures Serve("/admin/dashboard/settings", None, None) == Redirect("/admin")
  {
    assert StartsWith("/admin/dashboardX", "/admin/dashboard");
    assert "/admin/dashboardX"[16] == 'X' && ("/admin/dashboard" + "/")[16] == '/';
    assert !StartsWith("/admin/dashboardX", "/admin/dashboard/");
    assert |"/admin/dashboardX"| < |"/participant/waiting/"|;
    assert |"/admin/dashboardX"| < |"/participant/results/"|;
    assert !StartsWith("/admin/dashboardX", "/participant/quiz/");
    assert StartsWith("/admin/dashboard/settings", "/admin/dashboard/");
    assert StartsWith("/admin/dashboard/settings", "/admin/dashboard");
  }

  /** The redirect targets are not guarded, so a redirect never loops. */
  lemma NoRedirectLoop(path: string, adminCookie: Option<string>, participantCookie: Option<string>)
    requires Guard(path, adminCookie, participantCookie).Redirect?
    ensures Guard(Guard(path, adminCookie, participantCookie).location, adminCookie, participantCookie) == Next
  {
    assert !StartsWith("/admin", "/admin/dashboard");
    assert |"/participant"| < |"/participant/quiz"|;
  }

  /** An empty cookie value passes the guard although it fails
      validateAdminSession. */
  lemma EmptyCookiePasses(path: string)
    ensures Guard(path, Some(""), Some("")) == Next
  {
  }
}
