/**
 * `protectedRoute(roles?, options?)`: builds a middleware that lets a
 * request through only when it carries a valid bearer token of a known user
 * holding the required roles, and otherwise answers 401, 404 or 403 with a
 * JSON error body, or throws when it was given a malformed `roles` argument.
 */
module ProtectedRoute {
  import opened Wrappers
  import opened JsString
  import opened Json
  import opened Identity
  import opened Http

  /** An element of the `roles` argument, seen only as a string or not. */
  datatype RoleItem = RoleString(name: string) | NotString

  /**
   * The `roles` argument as a JavaScript value: absent, an array (every
   * array is truthy, even an empty one), or some other value, truthy or not.
   */
  datatype Roles = Undefined | RolesArray(items: seq<RoleItem>) | NotAnArray(truthy: bool)

  /** The `options` argument; an absent `requireAllRoles` is None. */
  datatype RouteOptions = RouteOptions(requireAllRoles: Option<bool>)

  /** What one run of the middleware does; an answer's body is the JSON `{ error: message }`. */
  datatype Outcome =
    | Respond(status: int, message: string)
    | Throw(message: string)
    | Proceed(token: Option<string>, user: SsoUser)

  const NoHeaderMessage := "No authorization header found."
  const InvalidTokenMessage := "Unauthorized: Invalid token, re-log to get a new one."
  const UserNotFoundMessage := "User not found."
  const MisuseMessage := "Error: protectedRoute middleware. Pass roles as an array of strings."

  /** `if (roles)`: `undefined` is falsy and every array, even an empty one, is truthy. */
  function RolesTruthy(roles: Roles): (truthy: bool)
    ensures roles.Undefined? ==> !truthy
    ensures roles.RolesArray? ==> truthy
  {
    roles.RolesArray? || (roles.NotAnArray? && roles.truthy)
  }

  /** `roles.every((item) => typeof item === 'string')`: true of the empty array, false once any item is not a string. */
  function AllStrings(items: seq<RoleItem>): (all: bool)
    ensures items == [] ==> all
    ensures all <==> NotString !in items
  {
    forall i :: 0 <= i < |items| ==> items[i].RoleString?
  }

  /** The names of an array of strings. */
  function RoleNames(items: seq<RoleItem>): (names: seq<string>)
    requires AllStrings(items)
    ensures |names| == |items|
    ensures forall i :: 0 <= i < |items| ==> items[i] == RoleString(names[i])
    decreases |items|
  {
    if items == [] then [] else [items[0].name] + RoleNames(items[1..])
  }

  /** `options && options.requireAllRoles === false`: only then is one role enough. */
  function OneRoleSuffices(options: Option<RouteOptions>): (one: bool)
    ensures one <==> options == Some(RouteOptions(Some(false)))
  {
    options.Some? && options.value.requireAllRoles == Some(false)
  }

  /**
   * The 403 message in at-least-one mode; `${roles}` joins the names with
   * commas, and the message ends with that list in brackets.
   */
  function AnyRoleMessage(names: seq<string>): (message: string)
    ensures var list := "[" + Join(names, ',') + "]"; |list| <= |message| && message[|message| - |list|..] == list
  {
    "User must have at least one of the following roles: [" + Join(names, ',') + "]"
  }

  /** The 403 message in all-roles mode, ending with the bracketed list of the names. */
  function AllRolesMessage(names: seq<string>): (message: string)
    ensures var list := "[" + Join(names, ',') + "]"; |list| <= |message| && message[|message| - |list|..] == list
  {
    "User must have all of the following roles: [" + Join(names, ',') + "]"
  }

  /** `req.headers['authorization']`: `undefined` exactly when the request has no such header, and otherwise its value. */
  function AuthorizationHeader(headers: map<string, string>): (header: Option<string>)
    ensures header.None? <==> "authorization" !in headers
    ensures header.Some? ==> header.value == headers["authorization"]
  {
    if "authorization" in headers then Some(headers["authorization"]) else None
  }

  /** `header.split(' ')[1]`: the second space-separated piece, `undefined` when there is none. */
  function BearerToken(header: string): (token: Option<string>)
    ensures token.Some? ==> ' ' !in token.value
  {
    var pieces := Split(header, ' ');
    SplitPiecesLackSeparator(header, ' ');
    if |pieces| >= 2 then Some(pieces[1]) else None
  }

  /**
   * What the middleware does with a request, given the library's answers, in
   * the order the checks are made. It answers only with 401, 403 or 404; it
   * lets a request through only with a non-empty header, carrying that
   * header's bearer token; and it throws only the misuse error, only for a
   * truthy `roles`.
   */
  function Decide(header: Option<string>, roles: Roles, options: Option<RouteOptions>, idp: IdentityClient): (outcome: Outcome)
    ensures outcome.Respond? ==> outcome.status == 401 || outcome.status == 403 || outcome.status == 404
    ensures outcome.Proceed? ==> header.Some? && header.value != "" && outcome.token == BearerToken(header.value)
    ensures outcome.Throw? ==> outcome.message == MisuseMessage && RolesTruthy(roles)
  {
    if header == None || header.value == "" then Respond(401, NoHeaderMessage)
    else
      var token := BearerToken(header.value);
      if !idp.isJWTValid(token) then Respond(401, InvalidTokenMessage)
      else
        var userInfo := idp.decodeJWT(token);
        var normalizedUser := idp.normalizeUser(userInfo);
        if userInfo == None || normalizedUser == None then Respond(404, UserNotFoundMessage)
        else if RolesTruthy(roles) && (!roles.RolesArray? || !AllStrings(roles.items)) then Throw(MisuseMessage)
        else if !RolesTruthy(roles) then Proceed(token, normalizedUser.value)
        else
          var names := RoleNames(roles.items);
          var userRoles := userInfo.value.clientRoles;
          if OneRoleSuffices(options) then
            if userRoles == None || !idp.hasAtLeastOneRole(userRoles.value, names) then Respond(403, AnyRoleMessage(names))
            else Proceed(token, normalizedUser.value)
          else
            if userRoles == None || !idp.hasAllRoles(userRoles.value, names) then Respond(403, AllRolesMessage(names))
            else Proceed(token, normalizedUser.value)
  }

  /** `res.statusCode = status; res.end(JSON.stringify({ error: message }))`. */
  method Answer(res: Response, status: int, message: string)
    modifies res
    ensures res.statusCode == status && res.ended == old(res.ended) + [ErrorBody(message)]
    ensures res.headers == old(res.headers) && res.headerWrites == old(res.headerWrites)
  {
    res.statusCode := status;
    res.End(ErrorBody(message));
  }

  /** The middleware `protectedRoute(roles, options)` returns; it keeps its two arguments. */
  class Middleware {
    const roles: Roles
    const options: Option<RouteOptions>

    constructor (roles: Roles, options: Option<RouteOptions>)
      ensures this.roles == roles && this.options == options
    {
      this.roles := roles;
      this.options := options;
    }

    /**
     * One request: answers it through `res`, or attaches the token and user
     * to `req` and calls `next`, or throws (returned as the error message).
     */
    method Handle(req: Request, res: Response, next: NextFunction, idp: IdentityClient) returns (thrown: Option<string>)
      modifies req, res, next
      ensures req.headers == old(req.headers) && res.headers == old(res.headers) && res.headerWrites == old(res.headerWrites)
      ensures var outcome := Decide(AuthorizationHeader(old(req.headers)), roles, options, idp);
        match outcome
        case Respond(status, message) =>
          thrown == None && res.statusCode == status && res.ended == old(res.ended) + [ErrorBody(message)]
          && next.calls == old(next.calls) && req.token == old(req.token) && req.user == old(req.user)
        case Throw(message) =>
          thrown == Some(message) && res.statusCode == old(res.statusCode) && res.ended == old(res.ended)
          && next.calls == old(next.calls) && req.token == old(req.token) && req.user == old(req.user)
        case Proceed(token, user) =>
          thrown == None && res.statusCode == old(res.statusCode) && res.ended == old(res.ended)
          && next.calls == old(next.calls) + 1 && req.token == token && req.user == Some(user)
    {
      var header := AuthorizationHeader(req.headers);
      ghost var outcome := Decide(header, roles, options, idp);
      if header == None || header.value == "" {
        assert outcome == Respond(401, NoHeaderMessage);
        Answer(res, 401, NoHeaderMessage);
        return None;
      }

      var token := BearerToken(header.value);
      var isTokenValid := idp.isJWTValid(token);
      if !isTokenValid {
        assert outcome == Respond(401, InvalidTokenMessage);
        Answer(res, 401, InvalidTokenMessage);
        return None;
      }

      var userInfo := idp.decodeJWT(token);
      var normalizedUser := idp.normalizeUser(userInfo);
      if userInfo == None || normalizedUser == None {
        assert outcome == Respond(404, UserNotFoundMessage);
        Answer(res, 404, UserNotFoundMessage);
        return None;
      }
      var userRoles := userInfo.value.clientRoles;

      if RolesTruthy(roles) && (!roles.RolesArray? || !AllStrings(roles.items)) {
        assert outcome == Throw(MisuseMessage);
        return Some(MisuseMessage);
      }

      if RolesTruthy(roles) {
        var names := RoleNames(roles.items);
        if OneRoleSuffices(options) {
          if userRoles == None || !idp.hasAtLeastOneRole(userRoles.value, names) {
            assert outcome == Respond(403, AnyRoleMessage(names));
            Answer(res, 403, AnyRoleMessage(names));
            return None;
          }
        } else {
          if userRoles == None || !idp.hasAllRoles(userRoles.value, names) {
            assert outcome == Respond(403, AllRolesMessage(names));
            Answer(res, 403, AllRolesMessage(names));
            return None;
          }
        }
      }

      assert outcome == Proceed(token, normalizedUser.value);
      req.token := token;
      req.user := normalizedUser;
      next.Call();
      return None;
    }
  }

  // The bearer token.

  /**
   * The token is the piece between the first and the second space, holds no
   * space, and is `undefined` exactly when the header has no space.
   */
  lemma BearerTokenSpec(header: string)
    ensures BearerToken(header) == None <==> ' ' !in header
    ensures BearerToken(header).Some? ==> ' ' !in BearerToken(header).value
  {
    var pieces := Split(header, ' ');
    SplitPiecesLackSeparator(header, ' ');
    if ' ' !in header {
      SplitNoSeparator(header, ' ');
    }
    if |pieces| == 1 {
      JoinSplit(header, ' ');
      assert header == pieces[0];
    }
  }

  /** `Bearer <token>` and `Bearer <token> <more>` both give `<token>`: text after a second space is dropped. */
  lemma BearerTokenOfHeader(scheme: string, token: string, rest: Option<string>)
    requires ' ' !in scheme && ' ' !in token
    ensures BearerToken(scheme + " " + token + (if rest.Some? then " " + rest.value else "")) == Some(token)
  {
    var more := if rest.Some? then " " + rest.value else "";
    var tail := token + more;
    if rest.Some? {
      SplitAfterPiece(token, rest.value, ' ');
      assert tail == token + [' '] + rest.value;
      assert Split(tail, ' ')[0] == token;
    } else {
      SplitNoSeparator(token, ' ');
      assert tail == token;
    }
    SplitAfterPiece(scheme, tail, ' ');
    assert scheme + " " + token + more == scheme + [' '] + tail;
  }

  // What the middleware decides.

  /** Requests are let through exactly when every check passes. */
  lemma ProceedIff(header: Option<string>, roles: Roles, options: Option<RouteOptions>, idp: IdentityClient)
    ensures Decide(header, roles, options, idp).Proceed? <==>
      header.Some? && header.value != ""
      && var token := BearerToken(header.value);
      idp.isJWTValid(token)
      && idp.decodeJWT(token).Some? && idp.normalizeUser(idp.decodeJWT(token)).Some?
      && (!RolesTruthy(roles)
          || (roles.RolesArray? && AllStrings(roles.items)
              && var userRoles := idp.decodeJWT(token).value.clientRoles;
              userRoles.Some?
              && (if OneRoleSuffices(options) then idp.hasAtLeastOneRole(userRoles.value, RoleNames(roles.items))
                  else idp.hasAllRoles(userRoles.value, RoleNames(roles.items)))))
  {
  }

  /** A request let through carries the second piece of its header as token and the normalized user. */
  lemma ProceedCarries(header: Option<string>, roles: Roles, options: Option<RouteOptions>, idp: IdentityClient)
    requires Decide(header, roles, options, idp).Proceed?
    ensures header.Some? && Decide(header, roles, options, idp).token == BearerToken(header.value)
    ensures Some(Decide(header, roles, options, idp).user) == idp.normalizeUser(idp.decodeJWT(BearerToken(header.value)))
  {
  }

  /** A malformed `roles` throws only for an authenticated, known user: the checks before it come first. */
  lemma ThrowIff(header: Option<string>, roles: Roles, options: Option<RouteOptions>, idp: IdentityClient)
    ensures Decide(header, roles, options, idp).Throw? <==>
      header.Some? && header.value != ""
      && var token := BearerToken(header.value);
      idp.isJWTValid(token)
      && idp.decodeJWT(token).Some? && idp.normalizeUser(idp.decodeJWT(token)).Some?
      && RolesTruthy(roles) && !(roles.RolesArray? && AllStrings(roles.items))
    ensures Decide(header, roles, options, idp).Throw? ==> Decide(header, roles, options, idp).message == MisuseMessage
  {
  }

  /** Every answer is 401, 404 or 403 with the message of its reason. */
  lemma RespondStatus(header: Option<string>, roles: Roles, options: Option<RouteOptions>, idp: IdentityClient)
    requires Decide(header, roles, options, idp).Respond?
    ensures var r := Decide(header, roles, options, idp);
      (r.status == 401 && (r.message == NoHeaderMessage || r.message == InvalidTokenMessage))
      || (r.status == 404 && r.message == UserNotFoundMessage)
      || (r.status == 403 && roles.RolesArray? && AllStrings(roles.items)
          && r.message == (if OneRoleSuffices(options) then AnyRoleMessage(RoleNames(roles.items))
                           else AllRolesMessage(RoleNames(roles.items))))
  {
  }

  /** A missing or empty `Authorization` header is answered 401 before anything is consulted. */
  lemma NoHeaderUnauthorized(header: Option<string>, roles: Roles, options: Option<RouteOptions>, idp: IdentityClient)
    requires header == None || header == Some("")
    ensures Decide(header, roles, options, idp) == Respond(401, NoHeaderMessage)
  {
  }

  /** An invalid token is answered 401 whatever the other checks would say. */
  lemma InvalidTokenUnauthorized(header: string, roles: Roles, options: Option<RouteOptions>, idp: IdentityClient)
    requires header != "" && !idp.isJWTValid(BearerToken(header))
    ensures Decide(Some(header), roles, options, idp) == Respond(401, InvalidTokenMessage)
  {
  }

  /** A valid token whose payload or user cannot be obtained is answered 404. */
  lemma UnknownUserNotFound(header: string, roles: Roles, options: Option<RouteOptions>, idp: IdentityClient)
    requires header != "" && idp.isJWTValid(BearerToken(header))
    requires idp.decodeJWT(BearerToken(header)) == None || idp.normalizeUser(idp.decodeJWT(BearerToken(header))) == None
    ensures Decide(Some(header), roles, options, idp) == Respond(404, UserNotFoundMessage)
  {
  }

  /** Without a truthy `roles`, the role functions are never consulted. */
  lemma NoRolesNoRoleCheck(header: Option<string>, roles: Roles, options: Option<RouteOptions>, idp: IdentityClient,
                           all: (seq<string>, seq<string>) -> bool, any: (seq<string>, seq<string>) -> bool)
    requires !RolesTruthy(roles)
    ensures Decide(header, roles, options, idp) == Decide(header, roles, options, idp.(hasAllRoles := all, hasAtLeastOneRole := any))
    ensures Decide(header, roles, options, idp).Proceed? || Decide(header, roles, options, idp).Respond?
  {
  }

  /**
   * `requireAllRoles: false` selects `hasAtLeastOneRole` and any other
   * options (absent, `true`, no property) select `hasAllRoles`; the other is never consulted.
   */
  lemma ModeSelection(header: Option<string>, roles: Roles, options: Option<RouteOptions>, idp: IdentityClient,
                      other: (seq<string>, seq<string>) -> bool)
    ensures OneRoleSuffices(options) ==>
      Decide(header, roles, options, idp) == Decide(header, roles, options, idp.(hasAllRoles := other))
    ensures !OneRoleSuffices(options) ==>
      Decide(header, roles, options, idp) == Decide(header, roles, options, idp.(hasAtLeastOneRole := other))
    ensures OneRoleSuffices(options) <==> options == Some(RouteOptions(Some(false)))
  {
  }

  /** A user whose token has no `client_roles` is refused whenever roles are required, even an empty list. */
  lemma MissingClientRolesForbidden(header: string, items: seq<RoleItem>, options: Option<RouteOptions>, idp: IdentityClient)
    requires header != "" && idp.isJWTValid(BearerToken(header))
    requires idp.decodeJWT(BearerToken(header)).Some? && idp.normalizeUser(idp.decodeJWT(BearerToken(header))).Some?
    requires idp.decodeJWT(BearerToken(header)).value.clientRoles == None
    requires AllStrings(items)
    ensures Decide(Some(header), RolesArray(items), options, idp).Respond?
    ensures Decide(Some(header), RolesArray(items), options, idp).status == 403
  {
  }

  /** The role names in the 403 messages are joined by commas, as `${roles}` does. */
  lemma RoleMessages(a: string, b: string)
    ensures AnyRoleMessage([a, b]) == "User must have at least one of the following roles: [" + a + "," + b + "]"
    ensures AllRolesMessage([a]) == "User must have all of the following roles: [" + a + "]"
    ensures AllRolesMessage([]) == "User must have all of the following roles: []"
  {
    assert Join([a, b], ',') == a + [','] + Join([b], ',');
  }
}
