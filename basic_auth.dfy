/** What the two Basic-authentication gates share: their outcome, the way both pick the
    credentials out of an `Authorization` header, and a reference reading of the 'Basic' scheme
    of section 2 of RFC 7617 to compare them with. Base64 decoding (`atob`, section 4 of
    RFC 4648) is a parameter: a partial function, `None` where `atob` throws. */
module BasicAuth {
  import opened Wrappers
  import opened Text

  /** The environment both gates read: `BASIC_AUTH_ENABLED`, `BASIC_AUTH_USER`,
      `BASIC_AUTH_PASSWORD`; `None` for an unset variable. */
  datatype Env = Env(enabled: Option<string>, user: Option<string>, password: Option<string>)

  /** Pass the request on, answer with a challenge, or fail with an uncaught exception. */
  datatype Outcome =
    | Allow
    | Challenge(status: int, headers: seq<(string, string)>, body: string)
    | Throws

  /** `header.split(' ')[1]`; when there is no second piece, `atob` receives `undefined`, which
      it converts to the text "undefined". */
  function TokenOf(header: string): string
  {
    match At(Split(header, ' '), 1)
    case Some(t) => t
    case None => "undefined"
  }

  /** The first `:`-piece of the decoded text: `user` of `const [user, pwd] = decoded.split(':')`. */
  function UserOf(decoded: string): (u: string)
    ensures ':' !in u
  {
    Split(decoded, ':')[0]
  }

  /** The second `:`-piece, `undefined` when the text has no colon: `pwd` of the same line. */
  function PasswordOf(decoded: string): (p: Option<string>)
    ensures p.Some? ==> ':' !in p.value
    ensures p.None? <==> ':' !in decoded
  {
    SplitSinglePieceIff(decoded, ':');
    At(Split(decoded, ':'), 1)
  }

  /** Credentials `u:p` with colon-free parts are read back as `u` and `p`; anything after a
      second colon is dropped. */
  lemma CredentialsOf(u: string, p: string, rest: string)
    requires ':' !in u && ':' !in p
    ensures UserOf(u + ":" + p) == u && PasswordOf(u + ":" + p) == Some(p)
    ensures UserOf(u + ":" + p + ":" + rest) == u && PasswordOf(u + ":" + p + ":" + rest) == Some(p)
  {
    SplitAfterWord(u, ':', p);
    SplitWithoutSeparator(p, ':');
    assert u + ":" + p + ":" + rest == u + [':'] + (p + [':'] + rest);
    SplitAfterWord(u, ':', p + [':'] + rest);
    SplitAfterWord(p, ':', rest);
  }

  /** The token is the second space-separated piece, whatever the first word is. */
  lemma TokenAfterWord(word: string, rest: string)
    requires ' ' !in word
    ensures TokenOf(word + " " + rest) == Split(rest, ' ')[0]
  {
    SplitAfterWord(word, ' ', rest);
  }

  // ---------------------------------------------------------------- the RFC's reading

  /** Credentials as section 2 of RFC 7617 defines them: the scheme word, compared without
      regard to case, is "Basic"; one space; a token without spaces; its decoding split at the
      FIRST colon, so the password may itself contain colons. */
  function RfcCredentials(header: string, atob: string -> Option<string>): Option<(string, string)>
  {
    match SplitAtFirst(header, ' ')
    case None => None
    case Some((scheme, token)) =>
      if Lower(scheme) != "basic" || ' ' in token then None
      else match atob(token)
        case None => None
        case Some(decoded) => SplitAtFirst(decoded, ':')
  }
}
