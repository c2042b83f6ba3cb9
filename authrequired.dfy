/** Where the "Log In" link of the authentication-required notice points. */
module AuthRequired {
  predicate StartsWith(s: string, p: string) {
    |p| <= |s| && s[..|p|] == p
  }

  /** The default of the `redirectPath` property. */
  const DefaultRedirectPath := "/login"

  /** A path under `/login` is used as it is; any other becomes the `redirect` parameter of the login
      page, inserted without encoding. */
  function LoginPath(redirectPath: string): (r: string)
    ensures StartsWith(r, "/login")
    ensures StartsWith(redirectPath, "/login") ==> r == redirectPath
    ensures !StartsWith(redirectPath, "/login") ==> r == "/login?redirect=" + redirectPath
  {
    if StartsWith(redirectPath, "/login") then redirectPath
    else
      assert ("/login?redirect=" + redirectPath)[..6] == "/login";
      "/login?redirect=" + redirectPath
  }

  /** Without properties the link is the login page itself. */
  lemma DefaultLoginPath()
    ensures LoginPath(DefaultRedirectPath) == "/login"
  {
  }

  /** A login path passed back in is kept as it is. */
  lemma LoginPathStable(redirectPath: string)
    ensures LoginPath(LoginPath(redirectPath)) == LoginPath(redirectPath)
  {
  }
}
