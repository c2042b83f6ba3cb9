/** The web frontend's authentication state: the signed-in user and token, restored from
    `localStorage`, set by a successful login and cleared by logout. */
module AuthContext {
  import opened Strings
  import opened ApiClient

  /** The rest of a login response body: the token, when there is one, and the user name. */
  datatype LoginData = LoginData(token: Option<string>, username: string)

  /** Whether `apiRequest` resolved to a body carrying a truthy token. */
  predicate Accepted(r: Outcome<LoginData>) {
    r.Data? && r.data.Some? && Truthy(r.data.value.rest.token)
  }

  class AuthProvider {
    var user: Option<string>
    var token: Option<string>
    var isLoading: bool
    const browser: Browser

    constructor(b: Browser)
      ensures user == None && token == None && isLoading && browser == b
    {
      user, token, isLoading := None, None, true;
      browser := b;
    }

    /** The provider renders its children only once it is not loading. */
    predicate Renders()
      reads this
    {
      !isLoading
    }

    /** `checkAuth`: both stored items must be truthy for the state to be restored from them. */
    method CheckAuth()
      modifies this
      ensures Renders()
      ensures var t, u := browser.Item("token"), browser.Item("username");
        if Truthy(t) && Truthy(u) then token == t && user == u
        else token == old(token) && user == old(user)
    {
      var storedToken, storedUsername := browser.Item("token"), browser.Item("username");
      if !Truthy(storedToken) || !Truthy(storedUsername) {
        isLoading := false;
        return;
      }
      token := storedToken;
      user := storedUsername;
      isLoading := false;
    }

    /** `login`: storage and state change only when the response carries a token, the page then goes
        to `/`; an error is rethrown. */
    method Login(fetched: Fetched<LoginData>) returns (thrown: Option<ApiError>)
      modifies this, browser
      ensures var r := ApiRequest(LoginEndpoint, fetched);
        && thrown == (if r.Failed? then Some(r.error) else None)
        && (Accepted(r) ==>
              var t, u := r.data.value.rest.token.value, r.data.value.rest.username;
              browser.storage == old(browser.storage)["token" := t]["username" := u]
              && token == Some(t) && user == Some(u) && browser.location == "/")
        && (!Accepted(r) ==> unchanged(browser) && token == old(token) && user == old(user))
      ensures Renders()
    {
      isLoading := true;
      var r := ApiRequest(LoginEndpoint, fetched);
      if r.Failed? {
        isLoading := false;
        return Some(r.error);
      }
      if Accepted(r) {
        var t, u := r.data.value.rest.token.value, r.data.value.rest.username;
        browser.storage := browser.storage["token" := t];
        browser.storage := browser.storage["username" := u];
        token := Some(t);
        user := Some(u);
        browser.location := "/";
      }
      isLoading := false;
      thrown := None;
    }

    /** `logout`: whatever the request does, both stored items and both state values are cleared and
        the page goes to `/login`. */
    method Logout(fetched: Fetched<()>)
      modifies this, browser
      ensures browser.storage == old(browser.storage) - {"token", "username"}
      ensures token == None && user == None && browser.location == "/login"
      ensures Renders()
    {
      isLoading := true;
      var _ := ApiRequest(LogoutEndpoint, fetched);
      browser.storage := browser.storage - {"token"};
      browser.storage := browser.storage - {"username"};
      token, user := None, None;
      isLoading := false;
      browser.location := "/login";
    }
  }
}
