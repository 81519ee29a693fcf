/** The authentication and authorisation decision of `get_current_user`:
    which token is used, how a failed Hub lookup is reported, and when the
    user the Hub returns may use the service. */
module Security {
  import opened Text
  import opened Http

  // ---------------------------------------------------------------------
  // Choosing the token
  // ---------------------------------------------------------------------

  /** The Python values that can meet in the token's `or` chain: `None`, a
      string, or the module-level `auth_by_cookie_deprecated` scheme object. */
  datatype PyValue = PyNone | PyStr(s: string) | DeprecatedCookieScheme

  /** Python truthiness: `None` and `""` are false; a scheme object is true. */
  predicate Truthy(v: PyValue) {
    match v
    case PyNone => false
    case PyStr(s) => s != ""
    case DeprecatedCookieScheme => true
  }

  /** Python's `a or b`. */
  function PyOr(a: PyValue, b: PyValue): PyValue {
    if Truthy(a) then a else b
  }

  function FromOptional(o: Option<string>): PyValue {
    match o
    case None => PyNone
    case Some(s) => PyStr(s)
  }

  /** `auth_param or auth_header or auth_cookie or auth_by_cookie_deprecated` */
  function SelectToken(param: Option<string>, header: Option<string>, cookie: Option<string>): PyValue {
    PyOr(PyOr(PyOr(FromOptional(param), FromOptional(header)), FromOptional(cookie)), DeprecatedCookieScheme)
  }

  /** The first source that is present and non-empty, in precedence order. */
  function FirstNonEmpty(sources: seq<Option<string>>): Option<string> {
    if sources == [] then None
    else if sources[0].Some? && sources[0].value != "" then sources[0]
    else FirstNonEmpty(sources[1..])
  }

  /** The token is the first non-empty one of query parameter, bearer header
      and cookie; when there is none it is the deprecated cookie scheme
      object, so it is never `None`. */
  lemma TokenPrecedence(param: Option<string>, header: Option<string>, cookie: Option<string>)
    ensures SelectToken(param, header, cookie) ==
      match FirstNonEmpty([param, header, cookie])
      case Some(t) => PyStr(t)
      case None => DeprecatedCookieScheme
    ensures SelectToken(param, header, cookie) != PyNone
  {
    var sources := [param, header, cookie];
    assert sources[1..] == [header, cookie];
    assert sources[1..][1..] == [cookie];
    assert sources[1..][1..][1..] == [];
    assert FirstNonEmpty([cookie]) == if cookie.Some? && cookie.value != "" then cookie else None;
  }

  // ---------------------------------------------------------------------
  // Required scopes
  // ---------------------------------------------------------------------

  const ScopesVariable := "JUPYTERHUB_OAUTH_SCOPES"
  const DefaultScopes: seq<string> := ["access:services"]

  /** The module-level `access_scopes`: the JSON list in
      JUPYTERHUB_OAUTH_SCOPES when that is set and non-empty (`decode` stands
      for `json.loads`), and `["access:services"]` otherwise. */
  function AccessScopes(env: map<string, string>, decode: string -> seq<string>): seq<string> {
    if ScopesVariable in env && env[ScopesVariable] != "" then decode(env[ScopesVariable])
    else DefaultScopes
  }

  /** Unset or empty, the variable gives the default scope; an empty scope
      list can only come from a value of the variable. */
  lemma AccessScopesDefault(env: map<string, string>, decode: string -> seq<string>)
    ensures ScopesVariable !in env || env[ScopesVariable] == "" ==>
      AccessScopes(env, decode) == ["access:services"]
    ensures AccessScopes(env, decode) == [] ==>
      ScopesVariable in env && env[ScopesVariable] != "" && decode(env[ScopesVariable]) == []
  {
  }

  // ---------------------------------------------------------------------
  // The Hub's answer and the decision
  // ---------------------------------------------------------------------

  datatype SharePermissions = SharePermissions(users: seq<string>, groups: seq<string>)

  /** The fields of the `User` model the decision uses. */
  datatype User = User(name: string, scopes: seq<string>, sharePermissions: Option<SharePermissions>)

  /** What `GET /user` with the token returns: an error response, or a body
      that parses as a `User`. */
  datatype HubResponse = HubError(statusCode: int) | HubUser(user: User)

  /** The collaborators the decision calls: the JWT unwrapping and the Hub
      request (together, from token to response), `is_jupyterhub_5()` and
      `get_users_and_group_allowed_to_share_with`. */
  datatype Hub = Hub(
    lookUp: PyValue -> HubResponse,
    isJupyterHub5: bool,
    shareWith: User -> SharePermissions)

  const MustLoginDetail := "Must login with token parameter or Authorization bearer header"
  const AuthFailedDetail := "Authentication failed. Please try logging in again."

  function NotAuthorizedDetail(name: string): string {
    "User '" + name + "' is not authorized to access this service."
  }

  /** `any(scope in user.scopes for scope in access_scopes)` */
  predicate HasAnyScope(required: seq<string>, held: seq<string>) {
    exists i :: 0 <= i < |required| && required[i] in held
  }

  /** The user after the optional share-permissions update. */
  function WithSharePermissions(hub: Hub, parsed: User): User {
    if hub.isJupyterHub5 then parsed.(sharePermissions := Some(hub.shareWith(parsed))) else parsed
  }

  /** `get_current_user` */
  function GetCurrentUser(
    param: Option<string>, header: Option<string>, cookie: Option<string>,
    hub: Hub, accessScopes: seq<string>): Result<User>
  {
    var token := SelectToken(param, header, cookie);
    if token == PyNone then
      Failure(HttpError(Unauthorized, MustLoginDetail))
    else
      match hub.lookUp(token)
      case HubError(_) => Failure(HttpError(Unauthorized, AuthFailedDetail))
      case HubUser(parsed) =>
        var user := WithSharePermissions(hub, parsed);
        if HasAnyScope(accessScopes, user.scopes) then Success(user)
        else Failure(HttpError(Forbidden, NotAuthorizedDetail(user.name)))
  }

  /** The "Must login" error is never raised: the token is never `None`. */
  lemma MustLoginUnreachable(
    param: Option<string>, header: Option<string>, cookie: Option<string>,
    hub: Hub, accessScopes: seq<string>)
    ensures GetCurrentUser(param, header, cookie, hub, accessScopes) != Failure(HttpError(401, MustLoginDetail))
  {
    TokenPrecedence(param, header, cookie);
  }

  /** An error response from the Hub is always a 401 with the generic
      message, whatever the scopes. */
  lemma HubErrorIsUnauthorized(
    param: Option<string>, header: Option<string>, cookie: Option<string>,
    hub: Hub, accessScopes: seq<string>)
    requires hub.lookUp(SelectToken(param, header, cookie)).HubError?
    ensures GetCurrentUser(param, header, cookie, hub, accessScopes) ==
      Failure(HttpError(401, "Authentication failed. Please try logging in again."))
  {
    TokenPrecedence(param, header, cookie);
  }

  /** The `any(...)` test is a non-empty intersection of the two scope sets. */
  lemma HasAnyScopeIffIntersect(required: seq<string>, held: seq<string>)
    ensures HasAnyScope(required, held) <==> (set s | s in required) * (set s | s in held) != {}
  {
    var common := (set s | s in required) * (set s | s in held);
    if HasAnyScope(required, held) {
      var i :| 0 <= i < |required| && required[i] in held;
      assert required[i] in common;
    }
    if common != {} {
      var s :| s in common;
      var i :| 0 <= i < |required| && required[i] == s;
    }
  }

  /** A user is returned exactly when the Hub knows the token and the
      required scopes and the user's scopes share an element; a known user
      without one is refused with 403 naming that user. */
  lemma AccessIffScopesIntersect(
    param: Option<string>, header: Option<string>, cookie: Option<string>,
    hub: Hub, accessScopes: seq<string>)
    ensures var result := GetCurrentUser(param, header, cookie, hub, accessScopes);
      var response := hub.lookUp(SelectToken(param, header, cookie));
      && (result.Success? <==>
            response.HubUser? && (set s | s in accessScopes) * (set s | s in response.user.scopes) != {})
      && (response.HubUser? && !result.Success? ==>
            result == Failure(HttpError(403, NotAuthorizedDetail(response.user.name))))
  {
    TokenPrecedence(param, header, cookie);
    var response := hub.lookUp(SelectToken(param, header, cookie));
    if response.HubUser? {
      HasAnyScopeIffIntersect(accessScopes, response.user.scopes);
    }
  }

  /** With an empty required-scope list every user the Hub returns is
      refused with 403. */
  lemma NoRequiredScopesForbidsAll(
    param: Option<string>, header: Option<string>, cookie: Option<string>,
    hub: Hub)
    requires hub.lookUp(SelectToken(param, header, cookie)).HubUser?
    ensures GetCurrentUser(param, header, cookie, hub, []).Failure?
    ensures GetCurrentUser(param, header, cookie, hub, []).error.status == 403
  {
    TokenPrecedence(param, header, cookie);
  }

  /** A returned user is the parsed one: on JupyterHub 5 with its share
      permissions replaced by the Hub's answer, otherwise unchanged. */
  lemma ReturnedUserIsParsedUser(
    param: Option<string>, header: Option<string>, cookie: Option<string>,
    hub: Hub, accessScopes: seq<string>)
    requires GetCurrentUser(param, header, cookie, hub, accessScopes).Success?
    ensures var u := GetCurrentUser(param, header, cookie, hub, accessScopes).value;
      var response := hub.lookUp(SelectToken(param, header, cookie));
      && response.HubUser?
      && u.name == response.user.name && u.scopes == response.user.scopes
      && (hub.isJupyterHub5 ==> u.sharePermissions == Some(hub.shareWith(response.user)))
      && (!hub.isJupyterHub5 ==> u == response.user)
  {
    TokenPrecedence(param, header, cookie);
  }
}
