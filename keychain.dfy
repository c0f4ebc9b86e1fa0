/** src/keychain.ts: reading Claude Code's OAuth credentials from the platform's store, and
    the expiry policy applied to the token found there.

    The operating system is a value: a `Host` holds the platform name and what the two
    stores would give back (the macOS keychain lookup's outcome and the credentials file's
    state), and `JSON.parse` is an oracle `parse` that yields `None` where it would throw. */
module Keychain {
  import opened Wrappers
  import JsText

  datatype OAuthToken = OAuthToken(
    accessToken: string,
    refreshToken: string,
    expiresAt: int,          // epoch milliseconds
    scopes: seq<string>,
    subscriptionType: string,
    rateLimitTier: string)

  /** The stored record; a record without `claudeAiOauth` means "not logged in". */
  datatype Credentials = Credentials(claudeAiOauth: Option<OAuthToken>)

  /** Outcome of `security find-generic-password -s "Claude Code-credentials" -a <user> -w`:
      a failure (entry not found or any other error), or the text printed on stdout. */
  datatype KeychainLookup = LookupFailed | LookupOutput(stdout: string)

  /** `~/.claude/.credentials.json`: absent, present but unreadable, or its text. */
  datatype CredentialsFile = FileAbsent | FileUnreadable | FileText(content: string)

  datatype Host = Host(platform: string, keychain: KeychainLookup, credentialsFile: CredentialsFile)

  /** `JSON.parse(text) as KeychainCredentials`; `None` where the parse throws. */
  type JsonParser = string -> Option<Credentials>

  const DARWIN := "darwin"
  const WIN32 := "win32"
  const LINUX := "linux"

  /** getCredentialsFromFile: a soft reader. It yields a record only when the file exists,
      can be read and parses; every other case is `None`, never an error. */
  function CredentialsFromFile(file: CredentialsFile, parse: JsonParser, debug: bool): (r: Option<Credentials>)
    ensures r.Some? <==> file.FileText? && parse(file.content).Some?
    ensures file.FileText? ==> r == parse(file.content)
  {
    match file
    case FileAbsent => None
    case FileUnreadable => None
    case FileText(content) => parse(content)
  }

  /** getCredentialsFromMacOSKeychain: a soft reader. It yields a record only when the lookup
      succeeds and its trimmed output parses; every other case is `None`, never an error. */
  function CredentialsFromKeychain(lookup: KeychainLookup, parse: JsonParser, debug: bool): (r: Option<Credentials>)
    ensures r.Some? <==> lookup.LookupOutput? && parse(JsText.Trim(lookup.stdout)).Some?
    ensures lookup.LookupOutput? ==> r == parse(JsText.Trim(lookup.stdout))
  {
    match lookup
    case LookupFailed => None
    case LookupOutput(stdout) => parse(JsText.Trim(stdout))
  }

  predicate IsFilePlatform(platform: string)
  {
    platform == WIN32 || platform == LINUX
  }

  /** getOAuthToken: dispatch on the platform; the debug flag only adds log output. */
  function GetOAuthToken(host: Host, parse: JsonParser, debug: bool): (r: Option<Credentials>)
    ensures host.platform == DARWIN ==> r == CredentialsFromKeychain(host.keychain, parse, debug)
    ensures IsFilePlatform(host.platform) ==> r == CredentialsFromFile(host.credentialsFile, parse, debug)
    ensures host.platform != DARWIN && !IsFilePlatform(host.platform) ==> r.None?
  {
    if host.platform == DARWIN then
      CredentialsFromKeychain(host.keychain, parse, debug)
    else if IsFilePlatform(host.platform) then
      CredentialsFromFile(host.credentialsFile, parse, debug)
    else
      None
  }

  /** The token inside a read, if any (`credentials?.claudeAiOauth ?? null`). */
  function TokenOf(read: Option<Credentials>): (t: Option<OAuthToken>)
    ensures t.Some? <==> read.Some? && read.value.claudeAiOauth.Some?
    ensures t.Some? ==> t == read.value.claudeAiOauth
  {
    if read.Some? then read.value.claudeAiOauth else None
  }

  /** On macOS only the keychain is consulted: the credentials file cannot change the result. */
  lemma DarwinReadsOnlyKeychain(h1: Host, h2: Host, parse: JsonParser, debug: bool)
    requires h1.platform == DARWIN && h2.platform == DARWIN && h1.keychain == h2.keychain
    ensures GetOAuthToken(h1, parse, debug) == GetOAuthToken(h2, parse, debug)
  {
  }

  /** On Windows and Linux only the file is consulted: the keychain cannot change the result. */
  lemma FilePlatformReadsOnlyFile(h1: Host, h2: Host, parse: JsonParser, debug: bool)
    requires IsFilePlatform(h1.platform) && IsFilePlatform(h2.platform)
    requires h1.credentialsFile == h2.credentialsFile
    ensures GetOAuthToken(h1, parse, debug) == GetOAuthToken(h2, parse, debug)
  {
  }

  /** Any other platform has no credentials, whatever the stores hold. */
  lemma UnsupportedPlatformHasNoCredentials(host: Host, parse: JsonParser, debug: bool)
    requires host.platform != DARWIN && !IsFilePlatform(host.platform)
    ensures GetOAuthToken(host, parse, debug) == None
  {
  }

  /** The debug flag never changes what is read. */
  lemma GetOAuthTokenIgnoresDebug(host: Host, parse: JsonParser)
    ensures GetOAuthToken(host, parse, true) == GetOAuthToken(host, parse, false)
  {
  }

  /** isTokenExpired, with the clock reading `now` (`Date.now()`) as a parameter. */
  predicate IsTokenExpired(token: OAuthToken, now: int, debug: bool)
  {
    now > token.expiresAt
  }

  /** Strict inequality: a token is still valid at the instant it expires, and expired one
      millisecond later. */
  lemma ExpiryBoundary(token: OAuthToken, debug: bool)
    ensures !IsTokenExpired(token, token.expiresAt, debug)
    ensures IsTokenExpired(token, token.expiresAt + 1, debug)
  {
  }

  /** Once expired, a token stays expired as the clock advances. */
  lemma ExpiryIsMonotone(token: OAuthToken, now: int, later: int, debug: bool)
    requires now <= later && IsTokenExpired(token, now, debug)
    ensures IsTokenExpired(token, later, debug)
  {
  }

  /** The verdict depends on `expiresAt` and `now` only. */
  lemma ExpiryDependsOnlyOnExpiresAt(t1: OAuthToken, t2: OAuthToken, now: int, d1: bool, d2: bool)
    requires t1.expiresAt == t2.expiresAt
    ensures IsTokenExpired(t1, now, d1) == IsTokenExpired(t2, now, d2)
  {
  }

  // ---------------------------------------------------------------------------------------
  // The debug output as written. Both debug blocks format `expiresAt` with
  // `new Date(expiresAt).toISOString()`, which throws a RangeError when `expiresAt` lies
  // outside the ECMAScript time range (more than 8.64e15 ms from the epoch). Nothing catches
  // it, so with `--debug` such a record aborts the launcher instead of being returned.

  /** A JavaScript call that either returns a value or throws. */
  datatype Completion<+T> = Returned(value: T) | Threw

  /** ECMAScript's TimeClip bound: the largest time value a `Date` can hold. */
  const MAX_TIME_VALUE := 8_640_000_000_000_000

  predicate IsTimeValue(ms: int)
  {
    -MAX_TIME_VALUE <= ms <= MAX_TIME_VALUE
  }

  /** getOAuthToken as written, including the debug block at src/keychain.ts:77-93. */
  function GetOAuthTokenAsWritten(host: Host, parse: JsonParser, debug: bool): (r: Completion<Option<Credentials>>)
    ensures r.Threw? <==> debug && TokenOf(GetOAuthToken(host, parse, debug)).Some? &&
                          !IsTimeValue(TokenOf(GetOAuthToken(host, parse, debug)).value.expiresAt)
    ensures r.Returned? ==> r.value == GetOAuthToken(host, parse, debug)
  {
    var credentials := GetOAuthToken(host, parse, debug);
    if debug && TokenOf(credentials).Some? && !IsTimeValue(TokenOf(credentials).value.expiresAt) then
      Threw
    else
      Returned(credentials)
  }

  /** isTokenExpired as written, including the debug block at src/keychain.ts:102-107. */
  function IsTokenExpiredAsWritten(token: OAuthToken, now: int, debug: bool): (r: Completion<bool>)
    ensures r.Threw? <==> debug && !IsTimeValue(token.expiresAt)
    ensures r.Returned? ==> r.value == IsTokenExpired(token, now, debug)
  {
    if debug && !IsTimeValue(token.expiresAt) then Threw else Returned(now > token.expiresAt)
  }

  /** A record whose token expires out of the time range: read fine without `--debug`,
      throws with it. */
  lemma DebugReadCanThrow()
    ensures var token := OAuthToken("a", "r", MAX_TIME_VALUE + 1, [], "pro", "default");
            var host := Host(LINUX, LookupFailed, FileText("{}"));
            var parse: JsonParser := _ => Some(Credentials(Some(token)));
            GetOAuthTokenAsWritten(host, parse, false) == Returned(Some(Credentials(Some(token)))) &&
            GetOAuthTokenAsWritten(host, parse, true) == Threw
  {
  }

  /** The same token: its expiry check answers without `--debug` and throws with it. */
  lemma DebugExpiryCheckCanThrow(now: int)
    ensures var token := OAuthToken("a", "r", MAX_TIME_VALUE + 1, [], "pro", "default");
            IsTokenExpiredAsWritten(token, now, false) == Returned(now > MAX_TIME_VALUE + 1) &&
            IsTokenExpiredAsWritten(token, now, true) == Threw
  {
  }
}
