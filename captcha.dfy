/** The signed captcha cookie: how the captcha endpoint issues it
    (src/app/api/auth/captcha/route.ts) and how the login guard splits and
    checks it (src/lib/auth.ts). */
module Captcha {
  import opened Wrappers

  predicate IsHexDigit(c: char) {
    '0' <= c <= '9' || 'a' <= c <= 'f'
  }

  /** What `digest('hex')` yields: lower-case hexadecimal text. */
  type HexString = s: string | forall i | 0 <= i < |s| :: IsHexDigit(s[i]) witness ""

  /** HMAC-SHA256 keyed by the first argument over the second, as hex.
      The hash itself is a library call, so it is a parameter of the model. */
  type Hmac = (string, string) -> HexString

  const CookieName := "auth-captcha"
  const DefaultSecret := "default-secret-key"
  /** The attributes that follow the value, after its ';'. `Max-Age=300`
      gives the cookie a lifetime of five minutes. */
  const CookieAttributes := " Path=/; HttpOnly; SameSite=Strict; Max-Age=300"

  // ---------------------------------------------------------------------------
  // Case folding

  /** `toLowerCase` on one character, for the ASCII letters. */
  function LowerChar(c: char): char {
    if 'A' <= c <= 'Z' then (c as int + 32) as char else c
  }

  function Lower(s: string): (r: string)
    ensures |r| == |s|
    ensures forall i | 0 <= i < |s| :: r[i] == LowerChar(s[i])
  {
    if s == [] then [] else [LowerChar(s[0])] + Lower(s[1..])
  }

  /** `a` and `b` spell the same text up to the case of their letters. */
  predicate SameIgnoringCase(a: string, b: string) {
    |a| == |b| && forall i | 0 <= i < |a| :: LowerChar(a[i]) == LowerChar(b[i])
  }

  /** Two texts have the same lower-case form exactly when they differ only in case. */
  lemma LowerEqualIff(a: string, b: string)
    ensures Lower(a) == Lower(b) <==> SameIgnoringCase(a, b)
  {
    if Lower(a) == Lower(b) {
      forall i | 0 <= i < |a| ensures LowerChar(a[i]) == LowerChar(b[i]) {
        assert Lower(a)[i] == Lower(b)[i];
      }
    }
    if SameIgnoringCase(a, b) {
      assert forall i | 0 <= i < |a| :: Lower(a)[i] == Lower(b)[i];
    }
  }

  /** Lower-casing never introduces the separator. */
  lemma LowerKeepsSeparatorOut(s: string, sep: char)
    requires sep !in s
    requires !('a' <= sep <= 'z')
    ensures sep !in Lower(s)
  {
  }

  // ---------------------------------------------------------------------------
  // Splitting at a separator

  /** The text before the first `sep`, and the text after it when `sep` occurs. */
  function SplitAt(s: string, sep: char): (r: (string, Option<string>))
    ensures sep !in r.0
    ensures r.1.None? <==> sep !in s
    ensures r.1.None? ==> r.0 == s
    ensures r.1.Some? ==> s == r.0 + [sep] + r.1.value
  {
    if s == [] then ("", None)
    else if s[0] == sep then ("", Some(s[1..]))
    else
      var tail := SplitAt(s[1..], sep);
      assert s == [s[0]] + s[1..];
      ([s[0]] + tail.0, tail.1)
  }

  /** A text free of `sep`, then `sep`, splits back into its two parts. */
  lemma {:induction false} SplitAtJoin(a: string, sep: char, b: string)
    requires sep !in a
    ensures SplitAt(a + [sep] + b, sep) == (a, Some(b))
  {
    if a != [] {
      var s := a + [sep] + b;
      assert s[0] == a[0] != sep;
      assert s[1..] == a[1..] + [sep] + b;
      SplitAtJoin(a[1..], sep, b);
      assert a == [a[0]] + a[1..];
    } else {
      assert a + [sep] + b == [sep] + b;
    }
  }

  /** A text free of `sep` does not split. */
  lemma SplitAtNoSeparator(a: string, sep: char)
    requires sep !in a
    ensures SplitAt(a, sep) == (a, None)
  {
  }

  /** `value.split('.')` destructured into `[text, signature]`: the text is
      the first piece, the signature the second one, undefined when the value
      holds no '.'. Pieces after the second are dropped. */
  function SplitCookie(value: string): (r: (string, Option<string>))
    ensures '.' !in r.0
    ensures r.1.None? <==> '.' !in value
    ensures r.1.None? ==> r.0 == value
    ensures r.1.Some? ==> '.' !in r.1.value
    ensures r.1.Some? ==> exists rest :: value == r.0 + "." + r.1.value + rest && (rest == "" || rest[0] == '.')
  {
    var (text, after) := SplitAt(value, '.');
    match after
    case None => (text, None)
    case Some(tail) =>
      var (signature, more) := SplitAt(tail, '.');
      var rest := if more.Some? then "." + more.value else "";
      assert value == text + "." + signature + rest;
      (text, Some(signature))
  }

  // ---------------------------------------------------------------------------
  // Signing and verifying

  /** `process.env.NEXTAUTH_SECRET || 'default-secret-key'`: an unset or empty
      variable falls back to the built-in default. Both the issuer and the
      verifier use this expression. */
  function SecretOf(env: Option<string>): (secret: string)
    ensures secret != ""
    ensures env.Some? && env.value != "" ==> secret == env.value
    ensures env.None? || env.value == "" ==> secret == DefaultSecret
  {
    if env.Some? && env.value != "" then env.value else DefaultSecret
  }

  /** `sign(text, secret)`: the hex HMAC tag of the text. */
  function Sign(text: string, secret: string, hmac: Hmac): HexString {
    hmac(secret, text)
  }

  /** `verify(text, signature, secret)`: the signature is exactly the tag of
      the text. A missing signature compares unequal to every string. */
  function Verify(text: string, signature: Option<string>, secret: string, hmac: Hmac): (ok: bool)
    ensures ok <==> signature == Some(Sign(text, secret, hmac))
  {
    match signature
    case None => false
    case Some(sig) => hmac(secret, text) == sig
  }

  /** A signature verifies under another secret only if that secret tags the text alike. */
  lemma VerifyOtherSecret(text: string, secret: string, other: string, hmac: Hmac)
    ensures Verify(text, Some(Sign(text, secret, hmac)), other, hmac) <==> hmac(other, text) == hmac(secret, text)
  {
  }

  /** The answer check of the login guard: the lower-cased answer equals the cookie's text. */
  predicate AnswerMatches(text: string, answer: string) {
    text == Lower(answer)
  }

  // ---------------------------------------------------------------------------
  // Issuing the cookie

  /** The cookie value: the lower-cased challenge text, '.', and its tag. */
  function IssueCookieValue(captchaText: string, secret: string, hmac: Hmac): (value: string) {
    var text := Lower(captchaText);
    text + "." + Sign(text, secret, hmac)
  }

  /** The `Set-Cookie` header the captcha endpoint sends. */
  function SetCookieHeader(value: string): (header: string) {
    CookieName + "=" + value + ";" + CookieAttributes
  }

  /** The value a browser stores from a `Set-Cookie` header: the text between
      the first '=' and the first ';'. */
  function HeaderValue(header: string): string {
    var (_, afterName) := SplitAt(header, '=');
    match afterName
    case None => ""
    case Some(rest) => SplitAt(rest, ';').0
  }

  /** The header names the captcha cookie, carries the issued value
      unchanged, and ends in the fixed attribute list. */
  lemma {:induction false} HeaderCarriesValue(value: string)
    requires ';' !in value
    ensures SplitAt(SetCookieHeader(value), '=').0 == CookieName
    ensures HeaderValue(SetCookieHeader(value)) == value
    ensures SplitAt(SetCookieHeader(value), ';') == (CookieName + "=" + value, Some(CookieAttributes))
  {
    var header := SetCookieHeader(value);
    assert header == CookieName + ['='] + (value + [';'] + CookieAttributes);
    SplitAtJoin(CookieName, '=', value + [';'] + CookieAttributes);
    SplitAtJoin(value, ';', CookieAttributes);
    assert header == (CookieName + "=" + value) + [';'] + CookieAttributes;
    SplitAtJoin(CookieName + "=" + value, ';', CookieAttributes);
  }

  /** An issued value parses back into the lower-cased text and its tag,
      whenever the challenge text holds no '.'. */
  lemma {:induction false} IssuedCookieSplits(captchaText: string, secret: string, hmac: Hmac)
    requires '.' !in captchaText
    ensures SplitCookie(IssueCookieValue(captchaText, secret, hmac))
         == (Lower(captchaText), Some(Sign(Lower(captchaText), secret, hmac)))
  {
    var text := Lower(captchaText);
    var tag := Sign(text, secret, hmac);
    LowerKeepsSeparatorOut(captchaText, '.');
    assert '.' !in tag;
    assert IssueCookieValue(captchaText, secret, hmac) == text + ['.'] + tag;
    SplitAtJoin(text, '.', tag);
    SplitAtNoSeparator(tag, '.');
  }

  /** Issued under the configured secret, the cookie verifies under it, and
      every case variant of the challenge text is accepted as the answer. */
  lemma IssuedCookieAccepted(captchaText: string, env: Option<string>, hmac: Hmac, answer: string)
    requires '.' !in captchaText
    requires SameIgnoringCase(answer, captchaText)
    ensures var (text, signature) := SplitCookie(IssueCookieValue(captchaText, SecretOf(env), hmac));
            Verify(text, signature, SecretOf(env), hmac) && AnswerMatches(text, answer)
  {
    IssuedCookieSplits(captchaText, SecretOf(env), hmac);
    LowerEqualIff(captchaText, answer);
  }

  /** The header the endpoint sends carries the issued value to the browser
      unchanged, and the value the browser returns passes the guard's
      signature check, whenever the challenge text holds neither '.' nor ';'. */
  lemma IssuedHeaderAccepted(captchaText: string, env: Option<string>, hmac: Hmac)
    requires '.' !in captchaText && ';' !in captchaText
    ensures var value := IssueCookieValue(captchaText, SecretOf(env), hmac);
            && HeaderValue(SetCookieHeader(value)) == value
            && var (text, signature) := SplitCookie(HeaderValue(SetCookieHeader(value)));
               Verify(text, signature, SecretOf(env), hmac)
  {
    var text := Lower(captchaText);
    var tag := Sign(text, SecretOf(env), hmac);
    var value := IssueCookieValue(captchaText, SecretOf(env), hmac);
    LowerKeepsSeparatorOut(captchaText, ';');
    assert ';' !in tag;
    assert value == text + "." + tag;
    HeaderCarriesValue(value);
    IssuedCookieSplits(captchaText, SecretOf(env), hmac);
  }

  /** An answer that is not a case variant of the challenge text is refused. */
  lemma OtherAnswerRefused(captchaText: string, secret: string, hmac: Hmac, answer: string)
    requires '.' !in captchaText
    requires !SameIgnoringCase(answer, captchaText)
    ensures !AnswerMatches(SplitCookie(IssueCookieValue(captchaText, secret, hmac)).0, answer)
  {
    IssuedCookieSplits(captchaText, secret, hmac);
    LowerEqualIff(captchaText, answer);
  }
}
