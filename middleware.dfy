/** The Next.js middleware of the front end (frontend/src/middleware.ts): Basic authentication
    switched on by `BASIC_AUTH_ENABLED`, decoding outside any `try`. */
module Middleware {
  import opened Wrappers
  import opened Text
  import opened BasicAuth

  const Realm := "Basic realm=\"Novel Viewer\""

  /** The 401 response: body, status and challenge header (section 4.1 of RFC 7235). */
  const Unauthorized := Challenge(401, [("WWW-Authenticate", Realm)], "Authentication required")

  /** The decision for one request. JavaScript's `===` against an unset variable is modelled by
      equality with `None`: the decoded user, always a string, never equals an unset user, while
      an absent password piece does equal an unset password. */
  function Decide(env: Env, authorization: Option<string>, atob: string -> Option<string>): Outcome
  {
    if env.enabled != Some("true") then Allow
    else if !Truthy(authorization) then Unauthorized
    else match atob(TokenOf(authorization.value))
      case None => Throws
      case Some(decoded) =>
        if Some(UserOf(decoded)) == env.user && PasswordOf(decoded) == env.password then Allow
        else Unauthorized
  }

  /** Anything but exactly "true" in `BASIC_AUTH_ENABLED` lets every request through. */
  lemma DisabledAllowsAll(env: Env, authorization: Option<string>, atob: string -> Option<string>)
    requires env.enabled != Some("true")
    ensures Decide(env, authorization, atob) == Allow
  {
  }

  /** Switched on, the three outcomes are: a throw exactly when a header is present and `atob`
      rejects its token; a pass exactly when the decoded pieces equal the configured pair; the
      401 challenge otherwise, in particular whenever the header is missing or empty. */
  lemma DecideSpec(env: Env, authorization: Option<string>, atob: string -> Option<string>)
    requires env.enabled == Some("true")
    ensures var r := Decide(env, authorization, atob);
      && (r == Throws <==> Truthy(authorization) && atob(TokenOf(authorization.value)).None?)
      && (r == Allow <==>
            && Truthy(authorization)
            && atob(TokenOf(authorization.value)).Some?
            && Some(UserOf(atob(TokenOf(authorization.value)).value)) == env.user
            && PasswordOf(atob(TokenOf(authorization.value)).value) == env.password)
      && (r != Throws && r != Allow ==> r == Unauthorized)
      && (!Truthy(authorization) ==> r == Unauthorized)
  {
  }

  /** The scheme word is never looked at: replacing it by any other space-free word changes nothing. */
  lemma SchemeIgnored(env: Env, scheme1: string, scheme2: string, rest: string, atob: string -> Option<string>)
    requires ' ' !in scheme1 && ' ' !in scheme2
    ensures Decide(env, Some(scheme1 + " " + rest), atob) == Decide(env, Some(scheme2 + " " + rest), atob)
  {
    TokenAfterWord(scheme1, rest);
    TokenAfterWord(scheme2, rest);
  }

  /** Only the first two `:`-pieces count: "a:b:c" passes for the pair a / b. */
  lemma ExtraPiecesIgnored(env: Env, header: string, atob: string -> Option<string>, u: string, p: string, extra: string)
    requires env == Env(Some("true"), Some(u), Some(p)) && ':' !in u && ':' !in p
    requires header != "" && atob(TokenOf(header)) == Some(u + ":" + p + ":" + extra)
    ensures Decide(env, Some(header), atob) == Allow
  {
    CredentialsOf(u, p, extra);
  }

  /** A configured password containing `:` can never be matched. */
  lemma ColonPasswordNeverMatches(env: Env, authorization: Option<string>, atob: string -> Option<string>)
    requires env.enabled == Some("true") && env.password.Some? && ':' in env.password.value
    ensures Decide(env, authorization, atob) != Allow
  {
  }

  /** With `BASIC_AUTH_USER` unset no request passes. */
  lemma UnsetUserNeverPasses(env: Env, authorization: Option<string>, atob: string -> Option<string>)
    requires env.enabled == Some("true") && env.user.None?
    ensures Decide(env, authorization, atob) != Allow
  {
  }

  /** With `BASIC_AUTH_PASSWORD` unset, a decoded text without any colon that equals the user
      passes, because the missing `pwd` equals the missing password. */
  lemma UnsetPasswordAcceptsBareUser(u: string, header: string, atob: string -> Option<string>)
    requires ':' !in u && header != "" && atob(TokenOf(header)) == Some(u)
    ensures Decide(Env(Some("true"), Some(u), None), Some(header), atob) == Allow
  {
    SplitWithoutSeparator(u, ':');
  }

  /** A token `atob` rejects is not caught: the request fails instead of being challenged. */
  lemma InvalidTokenThrows(env: Env, header: string, atob: string -> Option<string>)
    requires env.enabled == Some("true") && header != "" && atob(TokenOf(header)).None?
    ensures Decide(env, Some(header), atob) == Throws
  {
  }

  /** Where the header is what RFC 7617 asks for and neither part contains a colon, the gate and
      the RFC agree: the RFC reads the pair (u, p), and the gate passes exactly when it is the
      configured one. */
  lemma AgreesWithRfcOnPlainCredentials(env: Env, token: string, u: string, p: string, atob: string -> Option<string>)
    requires env.enabled == Some("true") && ' ' !in token && ':' !in u && ':' !in p
    requires atob(token) == Some(u + ":" + p)
    ensures RfcCredentials("Basic " + token, atob) == Some((u, p))
    ensures Decide(env, Some("Basic " + token), atob) == Allow <==> env.user == Some(u) && env.password == Some(p)
  {
    BasicPrefix(token);
    TokenAfterWord("Basic", token);
    SplitWithoutSeparator(token, ' ');
    CredentialsOf(u, p, "");
    SplitAtFirstOf("Basic", ' ', token);
    SplitAtFirstOf(u, ':', p);
    assert u + ":" + p == u + [':'] + p;
  }

  /** The scheme word of a `Basic` header, and its lower-case form. */
  lemma BasicPrefix(token: string)
    ensures "Basic " + token == "Basic" + [' '] + token
    ensures ' ' !in "Basic" && Lower("Basic") == "basic"
  {
    assert "Basic " == "Basic" + [' '];
  }

  /** Departures from RFC 7617: another scheme word is accepted, and a password with a colon,
      which the RFC allows, is refused. `token` carries `u:p`; `colonToken` carries `u:p:`,
      which the RFC reads as the user `u` with the password `p:`. */
  lemma DepartsFromRfc(token: string, colonToken: string, u: string, p: string, atob: string -> Option<string>)
    requires ' ' !in token && ':' !in u && ':' !in p
    requires atob(token) == Some(u + ":" + p)
    requires ' ' !in colonToken && atob(colonToken) == Some(u + ":" + p + ":")
    ensures RfcCredentials("Bearer " + token, atob).None?
    ensures Decide(Env(Some("true"), Some(u), Some(p)), Some("Bearer " + token), atob) == Allow
    ensures RfcCredentials("Basic " + token, atob) == Some((u, p))
    ensures Decide(Env(Some("true"), Some(u), Some(p + ":")), Some("Basic " + token), atob) != Allow
    ensures RfcCredentials("Basic " + colonToken, atob) == Some((u, p + ":"))
    ensures Decide(Env(Some("true"), Some(u), Some(p + ":")), Some("Basic " + colonToken), atob) != Allow
  {
    BearerAccepted(token, u, p, atob);
    AgreesWithRfcOnPlainCredentials(Env(Some("true"), Some(u), Some(p)), token, u, p, atob);
    RfcKeepsColonPassword(colonToken, u, p, atob);
    ColonPasswordNeverMatches(Env(Some("true"), Some(u), Some(p + ":")), Some("Basic " + colonToken), atob);
  }

  /** The RFC splits the decoded text at its first colon only, so a password may end in `:`. */
  lemma RfcKeepsColonPassword(colonToken: string, u: string, p: string, atob: string -> Option<string>)
    requires ' ' !in colonToken && ':' !in u
    requires atob(colonToken) == Some(u + ":" + p + ":")
    ensures RfcCredentials("Basic " + colonToken, atob) == Some((u, p + ":"))
  {
    BasicPrefix(colonToken);
    SplitAtFirstOf("Basic", ' ', colonToken);
    SplitAtFirstOf(u, ':', p + ":");
    assert u + ":" + p + ":" == u + [':'] + (p + ":");
  }

  /** A `Bearer` header carrying Basic credentials: refused by the RFC, passed by the gate. */
  lemma BearerAccepted(token: string, u: string, p: string, atob: string -> Option<string>)
    requires ' ' !in token && ':' !in u && ':' !in p
    requires atob(token) == Some(u + ":" + p)
    ensures RfcCredentials("Bearer " + token, atob).None?
    ensures Decide(Env(Some("true"), Some(u), Some(p)), Some("Bearer " + token), atob) == Allow
  {
    BearerToken(token);
    CredentialsOf(u, p, "");
    BearerRefused(token, atob);
  }

  lemma BearerToken(token: string)
    requires ' ' !in token
    ensures TokenOf("Bearer " + token) == token
  {
    BearerPrefix(token);
    TokenAfterWord("Bearer", token);
    SplitWithoutSeparator(token, ' ');
  }

  lemma BearerRefused(token: string, atob: string -> Option<string>)
    ensures RfcCredentials("Bearer " + token, atob).None?
  {
    BearerPrefix(token);
    SplitAtFirstOf("Bearer", ' ', token);
  }

  /** The scheme word of a `Bearer` header, which is not `basic` in any case. */
  lemma BearerPrefix(token: string)
    ensures "Bearer " + token == "Bearer" + [' '] + token
    ensures ' ' !in "Bearer" && Lower("Bearer") != "basic"
  {
    assert "Bearer " == "Bearer" + [' '];
    assert Lower("Bearer")[1] == 'e';
  }

}
