/** The Vercel edge middleware (frontend/api/_middleware.js): Basic authentication switched on
    by the presence of both credentials, with decoding failures caught and answered by the 401. */
module EdgeMiddleware {
  import opened Wrappers
  import opened Text
  import opened BasicAuth
  import Middleware

  const Realm := "Basic realm=\"Novel Viewer - Private Access\""

  const Unauthorized := Challenge(401,
    [("WWW-Authenticate", Realm), ("Content-Type", "text/plain; charset=utf-8")],
    "認証が必要です / Authentication required")

  /** Whether the gate is active: both `BASIC_AUTH_USER` and `BASIC_AUTH_PASSWORD` are set and
      non-empty (`BASIC_AUTH_ENABLED` is not read here). */
  predicate Active(env: Env)
  {
    Truthy(env.user) && Truthy(env.password)
  }

  /** The decision for one request. */
  function Decide(env: Env, authorization: Option<string>, atob: string -> Option<string>): Outcome
  {
    if !Active(env) then Allow
    else if Truthy(authorization) then
      match atob(TokenOf(authorization.value))
      case Some(decoded) =>
        if Some(UserOf(decoded)) == env.user && PasswordOf(decoded) == env.password then Allow
        else Unauthorized
      case None => Unauthorized
    else Unauthorized
  }

  /** A missing or empty credential switches the gate off. */
  lemma InactiveAllowsAll(env: Env, authorization: Option<string>, atob: string -> Option<string>)
    requires !Active(env)
    ensures Decide(env, authorization, atob) == Allow
  {
  }

  /** Active, the gate never throws; it passes exactly when a header is present, `atob` accepts
      its token and the decoded pieces equal the configured pair; otherwise it answers with the
      plain-text 401 carrying both headers. */
  lemma DecideSpec(env: Env, authorization: Option<string>, atob: string -> Option<string>)
    requires Active(env)
    ensures var r := Decide(env, authorization, atob);
      && r != Throws
      && (r == Allow <==>
            && Truthy(authorization)
            && atob(TokenOf(authorization.value)).Some?
            && Some(UserOf(atob(TokenOf(authorization.value)).value)) == env.user
            && PasswordOf(atob(TokenOf(authorization.value)).value) == env.password)
      && (r != Allow ==> r == Unauthorized)
  {
  }

  /** The correct pair, sent with any scheme word, is accepted once the gate is active. */
  lemma AcceptsConfiguredPair(u: string, p: string, scheme: string, token: string, atob: string -> Option<string>)
    requires u != "" && p != "" && ':' !in u && ':' !in p && ' ' !in scheme && ' ' !in token
    requires atob(token) == Some(u + ":" + p)
    ensures Decide(Env(None, Some(u), Some(p)), Some(scheme + " " + token), atob) == Allow
  {
    TokenAfterWord(scheme, token);
    SplitWithoutSeparator(token, ' ');
    CredentialsOf(u, p, "");
  }

  /** Where both gates are active, they agree whenever `atob` accepts the token, and differ
      only in the shape of their 401 and in the edge gate catching a rejected token. */
  lemma ComparedWithNextGate(env: Env, authorization: Option<string>, atob: string -> Option<string>)
    requires Active(env) && env.enabled == Some("true")
    ensures (Decide(env, authorization, atob) == Allow) == (Middleware.Decide(env, authorization, atob) == Allow)
    ensures Middleware.Decide(env, authorization, atob) == Throws ==> Decide(env, authorization, atob) == Unauthorized
    ensures Middleware.Decide(env, authorization, atob) == Middleware.Unauthorized ==> Decide(env, authorization, atob) == Unauthorized
  {
    Middleware.DecideSpec(env, authorization, atob);
  }

  /** A header of one word (`Basic` alone, say) has no second piece, so both gates decode the
      text "undefined"; where `atob` rejects that text (nine characters, none of them blank, is
      not a base64 length), the Next gate fails with an exception while this one answers 401. */
  lemma SingleWordHeader(env: Env, header: string, atob: string -> Option<string>)
    requires Active(env) && env.enabled == Some("true") && header != "" && ' ' !in header
    requires atob("undefined").None?
    ensures TokenOf(header) == "undefined"
    ensures Middleware.Decide(env, Some(header), atob) == Throws
    ensures Decide(env, Some(header), atob) == Unauthorized
  {
    OneWordToken(header);
    assert atob(TokenOf(header)).None?;
    Middleware.InvalidTokenThrows(env, header, atob);
    ComparedWithNextGate(env, Some(header), atob);
  }

  /** The token of a header without a space, and its length. */
  lemma OneWordToken(header: string)
    requires ' ' !in header
    ensures TokenOf(header) == "undefined" && |TokenOf(header)| % 4 == 1
  {
    SplitWithoutSeparator(header, ' ');
  }

  /** The two gates are switched on by different settings: credentials alone activate this one
      and leave the other open, while `BASIC_AUTH_ENABLED` alone, without a password, does the
      reverse. */
  lemma DifferentSwitches(u: string, p: string, atob: string -> Option<string>)
    requires u != "" && p != ""
    ensures Decide(Env(None, Some(u), Some(p)), None, atob) == Unauthorized
    ensures Middleware.Decide(Env(None, Some(u), Some(p)), None, atob) == Allow
    ensures Decide(Env(Some("true"), Some(u), None), None, atob) == Allow
    ensures Middleware.Decide(Env(Some("true"), Some(u), None), None, atob) == Middleware.Unauthorized
  {
  }
}
