/** src/cli.ts, main: the decisions taken before `claude` is launched.

    The launcher parses its arguments, reads the OAuth token, refreshes it when it is expired
    (or when DEBUG_FORCE_EXPIRED=1), resolves the API key of the selected mode (asking the user
    when none is stored), and composes the environment of the launched `claude`. Launching is
    not performed: the result is the command that would be spawned, or the exit code of an
    abort. */
module Launcher {
  import opened Wrappers
  import opened Keychain
  import JsText
  import opened Configuration
  import opened Refresh

  const POLYCHAT_BASE_URL := "https://polychat.co/cc"
  const LOCAL_BASE_URL := "http://localhost:8080/cc"
  const CLAUDE := "claude"
  const DEBUG_FLAG := "--debug"
  const LOCAL_ARG := "local"

  datatype LaunchArgs = LaunchArgs(debug: bool, local: bool, forwarded: seq<string>)

  /** What main ends in: `claude` spawned with ANTHROPIC_BASE_URL and ANTHROPIC_AUTH_TOKEN set,
      or `process.exit(code)` before that. */
  datatype LaunchResult =
    | Spawn(program: string, args: seq<string>, baseUrl: string, authToken: string)
    | Abort(exitCode: int)

  /** `process.argv.slice(2)`: the arguments after the node binary and the script. */
  function UserArgs(argv: seq<string>): (args: seq<string>)
    ensures |argv| >= 2 ==> argv == argv[..2] + args
    ensures |argv| < 2 ==> args == []
  {
    if |argv| < 2 then [] else argv[2..]
  }

  /** `args.filter((arg) => arg !== "--debug")`. */
  function WithoutDebugFlag(args: seq<string>): (r: seq<string>)
    ensures forall a :: a in r <==> a in args && a != DEBUG_FLAG
    ensures |r| <= |args|
  {
    if |args| == 0 then []
    else if args[0] == DEBUG_FLAG then WithoutDebugFlag(args[1..])
    else [args[0]] + WithoutDebugFlag(args[1..])
  }

  /** The filter works element by element: it keeps the order of what it keeps. */
  lemma {:induction false} WithoutDebugFlagDistributes(a: seq<string>, b: seq<string>)
    ensures WithoutDebugFlag(a + b) == WithoutDebugFlag(a) + WithoutDebugFlag(b)
  {
    if |a| == 0 {
      assert a + b == b;
    } else {
      assert (a + b)[1..] == a[1..] + b;
      WithoutDebugFlagDistributes(a[1..], b);
    }
  }

  /** Only `--debug` is removed: the filter drops exactly its occurrences. */
  lemma {:induction false} WithoutDebugFlagDropsOnlyDebug(args: seq<string>)
    ensures |WithoutDebugFlag(args)| == |args| - multiset(args)[DEBUG_FLAG]
    ensures DEBUG_FLAG !in args ==> WithoutDebugFlag(args) == args
  {
    if |args| > 0 {
      assert args == [args[0]] + args[1..];
      WithoutDebugFlagDropsOnlyDebug(args[1..]);
    }
  }

  /** Argument handling: `--debug` anywhere switches on debug output and is removed; the word
      `local` as the first remaining argument selects local mode and is not passed on;
      everything else is forwarded to `claude` in order. */
  function ParseArgs(argv: seq<string>): (p: LaunchArgs)
    ensures p.debug <==> DEBUG_FLAG in UserArgs(argv)
    ensures p.local <==> |WithoutDebugFlag(UserArgs(argv))| > 0 && WithoutDebugFlag(UserArgs(argv))[0] == LOCAL_ARG
    ensures p.local ==> [LOCAL_ARG] + p.forwarded == WithoutDebugFlag(UserArgs(argv))
    ensures !p.local ==> p.forwarded == WithoutDebugFlag(UserArgs(argv))
    ensures DEBUG_FLAG !in p.forwarded
  {
    var args := UserArgs(argv);
    var filteredArgs := WithoutDebugFlag(args);
    var isLocalMode := |filteredArgs| > 0 && filteredArgs[0] == LOCAL_ARG;
    assert isLocalMode ==> filteredArgs == [LOCAL_ARG] + filteredArgs[1..];
    LaunchArgs(DEBUG_FLAG in args, isLocalMode, if isLocalMode then filteredArgs[1..] else filteredArgs)
  }

  /** `--debug` is dropped wherever it stands, and `local` counts only in first position. */
  lemma ParseArgsExamples()
    ensures ParseArgs(["node", "cli.js", "--debug", "local", "--resume"]) == LaunchArgs(true, true, ["--resume"])
    ensures ParseArgs(["node", "cli.js", "-p", "local"]) == LaunchArgs(false, false, ["-p", "local"])
    ensures ParseArgs(["node", "cli.js"]) == LaunchArgs(false, false, [])
  {
  }

  /** `process.env.DEBUG_FORCE_EXPIRED === "1"`. */
  predicate ForceRefresh(forceExpiredVar: Option<string>)
  {
    forceExpiredVar == Some("1")
  }

  /** A refresh is attempted when a token was found and it is expired or a refresh is forced. */
  predicate RefreshTrigger(found: Option<OAuthToken>, force: bool, now: int, debug: bool)
  {
    found.Some? && (force || IsTokenExpired(found.value, now, debug))
  }

  /** The OAuth token the launch uses: the one found, unless a refresh is attempted, in which
      case the refreshed token, or none when the refresh fails. */
  function OAuthForLaunch(found: Option<OAuthToken>, force: bool, now: int, debug: bool,
                          refreshReads: StoreReads, nowAfterRefresh: int): Option<OAuthToken>
  {
    if RefreshTrigger(found, force, now, debug) then RefreshSpec(refreshReads, nowAfterRefresh).Result() else found
  }

  /** A failed refresh (timeout or still expired) continues the launch without OAuth. */
  lemma RefreshFailureDropsOAuth(found: Option<OAuthToken>, force: bool, now: int, debug: bool,
                                 refreshReads: StoreReads, nowAfterRefresh: int)
    requires RefreshTrigger(found, force, now, debug) && !RefreshSpec(refreshReads, nowAfterRefresh).Refreshed?
    ensures OAuthForLaunch(found, force, now, debug, refreshReads, nowAfterRefresh) == None
  {
  }

  /** No token found means no refresh and no OAuth. */
  lemma NoTokenNoOAuth(force: bool, now: int, debug: bool, refreshReads: StoreReads, nowAfterRefresh: int)
    ensures !RefreshTrigger(None, force, now, debug)
    ensures OAuthForLaunch(None, force, now, debug, refreshReads, nowAfterRefresh) == None
  {
  }

  /** The launched program never receives a token that was already expired when main checked
      the clock. The requires takes the refresh's own clock reading to be no earlier than
      main's; `Date.now()` is a wall clock that can be set back, and then a refreshed token
      valid at the later reading need not be valid at the earlier one. */
  lemma LaunchTokenIsUnexpired(found: Option<OAuthToken>, force: bool, now: int, debug: bool,
                               refreshReads: StoreReads, nowAfterRefresh: int)
    requires now <= nowAfterRefresh
    ensures var t := OAuthForLaunch(found, force, now, debug, refreshReads, nowAfterRefresh);
            t.Some? ==> !IsTokenExpired(t.value, now, debug)
  {
  }

  /** On a platform without a supported store the launch uses the API key alone. */
  lemma UnsupportedPlatformUsesKeyOnly(host: Host, parse: JsonParser, force: bool, now: int, debug: bool,
                                       refreshReads: StoreReads, nowAfterRefresh: int, key: string)
    requires host.platform != DARWIN && !IsFilePlatform(host.platform)
    ensures CompositeToken(OAuthForLaunch(TokenOf(GetOAuthToken(host, parse, debug)), force, now, debug,
                                          refreshReads, nowAfterRefresh), key) == key
  {
  }

  /** `if (!polychatApiKey)`: an absent key and an empty one both count as missing. */
  predicate KeyPresent(key: Option<string>)
  {
    key.Some? && key.value != ""
  }

  /** The stored key of the selected mode. */
  function StoredKey(file: ConfigFile, local: bool): (key: Option<string>)
    ensures local ==> key == LoadConfig(file).localPolychatApiKey
    ensures !local ==> key == LoadConfig(file).polychatApiKey
  {
    if local then LoadConfig(file).localPolychatApiKey else LoadConfig(file).polychatApiKey
  }

  /** The key used for the launch: the stored one if present, otherwise the trimmed answer
      to the prompt; none (an abort) when that answer is empty. */
  function ResolvedKey(file: ConfigFile, local: bool, promptAnswer: string): (key: Option<string>)
    ensures KeyPresent(StoredKey(file, local)) ==> key == StoredKey(file, local)
    ensures !KeyPresent(StoredKey(file, local)) ==>
              key == if JsText.Trim(promptAnswer) == "" then None else Some(JsText.Trim(promptAnswer))
    ensures key.Some? ==> key.value != ""
  {
    if KeyPresent(StoredKey(file, local)) then StoredKey(file, local)
    else if JsText.Trim(promptAnswer) == "" then None
    else Some(JsText.Trim(promptAnswer))
  }

  /** The config file after the key resolution: rewritten only when a prompted key is saved,
      and then only in the selected mode's namespace. */
  function FileAfterKeyResolution(file: ConfigFile, local: bool, promptAnswer: string): ConfigFile
  {
    if KeyPresent(StoredKey(file, local)) || JsText.Trim(promptAnswer) == "" then file
    else if local then WithLocalPolychatApiKey(file, JsText.Trim(promptAnswer))
    else WithPolychatApiKey(file, JsText.Trim(promptAnswer))
  }

  /** A prompted key is remembered: the next launch in the same mode finds it stored and does
      not ask again. */
  lemma PromptedKeyIsRemembered(file: ConfigFile, local: bool, promptAnswer: string, laterAnswer: string)
    requires ResolvedKey(file, local, promptAnswer).Some?
    ensures ResolvedKey(FileAfterKeyResolution(file, local, promptAnswer), local, laterAnswer)
         == ResolvedKey(file, local, promptAnswer)
  {
  }

  /** The bearer value: `accessToken,key` with OAuth, the key alone without it. */
  function CompositeToken(oauth: Option<OAuthToken>, key: string): string
  {
    if oauth.Some? then oauth.value.accessToken + "," + key else key
  }

  /** Reads a bearer value back: the text before the first comma and, if there is a comma,
      the text after it. */
  function SplitAtFirstComma(s: string): (parts: (string, Option<string>))
    ensures parts.1.None? ==> parts.0 == s && ',' !in s
    ensures parts.1.Some? ==> s == parts.0 + "," + parts.1.value && ',' !in parts.0
  {
    if |s| == 0 then ("", None)
    else if s[0] == ',' then ("", Some(s[1..]))
    else
      var rest := SplitAtFirstComma(s[1..]);
      assert s == [s[0]] + s[1..];
      ([s[0]] + rest.0, rest.1)
  }

  lemma {:induction false} SplitAtFirstCommaOf(a: string, b: string)
    requires ',' !in a
    ensures SplitAtFirstComma(a + "," + b) == (a, Some(b))
  {
    if |a| > 0 {
      assert (a + "," + b)[1..] == a[1..] + "," + b;
      SplitAtFirstCommaOf(a[1..], b);
      assert [a[0]] + a[1..] == a;
    } else {
      assert a + "," + b == [','] + b;
    }
  }

  /** With OAuth, the bearer value splits back into the access token and the key, provided the
      access token holds no comma. Without OAuth it is the key alone, whatever the key holds,
      and it reads back as a bare key only when the key has no comma. */
  lemma CompositeTokenSplits(oauth: Option<OAuthToken>, key: string)
    requires oauth.Some? ==> ',' !in oauth.value.accessToken
    ensures oauth.Some? ==> SplitAtFirstComma(CompositeToken(oauth, key)) == (oauth.value.accessToken, Some(key))
    ensures oauth.None? ==> CompositeToken(oauth, key) == key
    ensures oauth.None? && ',' !in key ==> SplitAtFirstComma(CompositeToken(oauth, key)) == (key, None)
  {
    if oauth.Some? {
      SplitAtFirstCommaOf(oauth.value.accessToken, key);
    }
  }

  /** The pasted key is only trimmed, so it may hold a comma. Without OAuth such a key gives
      the same bearer value as an OAuth launch whose access token is the text before the comma
      and whose key is the text after it: the receiver cannot tell the two apart. */
  lemma KeyWithCommaLooksLikeOAuth(token: OAuthToken, before: string, after: string)
    requires ',' !in before && token.accessToken == before
    ensures CompositeToken(None, before + "," + after) == CompositeToken(Some(token), after)
    ensures SplitAtFirstComma(CompositeToken(None, before + "," + after)) == (before, Some(after))
  {
    SplitAtFirstCommaOf(before, after);
  }

  /** The endpoint: the local server exactly in local mode. */
  function BaseUrl(local: bool): (url: string)
    ensures url == LOCAL_BASE_URL <==> local
    ensures url == POLYCHAT_BASE_URL <==> !local
  {
    assert LOCAL_BASE_URL[4] != POLYCHAT_BASE_URL[4];
    if local then LOCAL_BASE_URL else POLYCHAT_BASE_URL
  }

  /** main, with its inputs as parameters: the command line, DEBUG_FORCE_EXPIRED, the host's
      credential stores, the clock when the token is checked, what the store shows during a
      refresh and the clock after it, and what the user would paste at the prompt. */
  method RunLauncher(argv: seq<string>, forceExpiredVar: Option<string>, host: Host, parse: JsonParser,
                     now: int, refreshReads: StoreReads, nowAfterRefresh: int, promptAnswer: string,
                     store: ConfigStore)
    returns (result: LaunchResult, ghost refreshAttempted: bool)
    modifies store
    ensures var p := ParseArgs(argv);
            var found := TokenOf(GetOAuthToken(host, parse, p.debug));
            && refreshAttempted == RefreshTrigger(found, ForceRefresh(forceExpiredVar), now, p.debug)
            && store.file == FileAfterKeyResolution(old(store.file), p.local, promptAnswer)
            && store.dirExists == (old(store.dirExists) || (!KeyPresent(StoredKey(old(store.file), p.local))
                                                            && JsText.Trim(promptAnswer) != ""))
            && (result.Abort? <==> ResolvedKey(old(store.file), p.local, promptAnswer).None?)
            && (result.Abort? ==> result.exitCode == 1)
            && (result.Spawn? ==>
                  result == Spawn(CLAUDE, p.forwarded, BaseUrl(p.local),
                                  CompositeToken(OAuthForLaunch(found, ForceRefresh(forceExpiredVar), now, p.debug,
                                                                refreshReads, nowAfterRefresh),
                                                 ResolvedKey(old(store.file), p.local, promptAnswer).value)))
  {
    var launchArgs := ParseArgs(argv);
    var isDebugMode := launchArgs.debug;
    var forceTokenRefresh := forceExpiredVar == Some("1");
    var isLocalMode := launchArgs.local;

    var credentials := GetOAuthToken(host, parse, isDebugMode);
    var oauthToken := if credentials.Some? then credentials.value.claudeAiOauth else None;
    refreshAttempted := false;
    if oauthToken.None? {
    } else if forceTokenRefresh || IsTokenExpired(oauthToken.value, now, isDebugMode) {
      refreshAttempted := true;
      var outcome;
      ghost var elapsedMs, trace;
      outcome, elapsedMs, trace := RefreshOAuthToken(isDebugMode, refreshReads, nowAfterRefresh);
      var refreshedToken := outcome.Result();
      if refreshedToken.None? {
        oauthToken := None;
      } else {
        oauthToken := refreshedToken;
      }
    }

    var polychatApiKey := if isLocalMode then store.GetLocalPolychatApiKey() else store.GetPolychatApiKey();
    if !KeyPresent(polychatApiKey) {
      var answer := JsText.Trim(promptAnswer);
      if answer == "" {
        result := Abort(1);
        return;
      }
      polychatApiKey := Some(answer);
      if isLocalMode {
        store.SetLocalPolychatApiKey(answer);
      } else {
        store.SetPolychatApiKey(answer);
      }
    }

    var combinedAuthToken := CompositeToken(oauthToken, polychatApiKey.value);
    var baseUrl := BaseUrl(isLocalMode);
    result := Spawn(CLAUDE, launchArgs.forwarded, baseUrl, combinedAuthToken);
  }

  /** `node cli.js local` selects local mode with nothing to forward. */
  lemma LocalModeArgs()
    ensures ParseArgs(["node", "cli.js", "local"]) == LaunchArgs(false, true, [])
  {
    assert UserArgs(["node", "cli.js", "local"]) == [LOCAL_ARG];
    assert WithoutDebugFlag([LOCAL_ARG]) == [LOCAL_ARG];
  }

  /** The key pasted with surrounding blanks and a newline is stored without them. */
  lemma PastedKeyIsTrimmed()
    ensures JsText.Trim("  key-123\n") == "key-123"
  {
    var key := "key-123";
    assert JsText.AllWhitespace("  ");
    assert JsText.AllWhitespace("\n");
    assert JsText.Trimmed(key) by {
      assert key[0] == 'k' && key[|key| - 1] == '3';
    }
    assert "  " + key + "\n" == "  key-123\n";
    JsText.TrimRecoversText("  ", key, "\n");
  }

  /** On a fresh machine the first local launch uses the trimmed answer and saves it in the
      local namespace only. */
  lemma FirstLocalLaunchSavesKey(answer: string)
    ensures JsText.Trim(answer) != "" ==> ResolvedKey(Missing, true, answer) == Some(JsText.Trim(answer))
    ensures JsText.Trim(answer) != "" ==>
              FileAfterKeyResolution(Missing, true, answer) == Saved(Config(None, Some(JsText.Trim(answer))))
  {
  }

  /** Two launches in local mode on a fresh machine: the first asks for the key and saves it
      in the local namespace, the second finds it and does not need the prompt. */
  method LocalKeyIsRememberedAcrossLaunches(parse: JsonParser, now: int, refreshReads: StoreReads, answer: string)
    requires JsText.Trim(answer) != ""
  {
    var store := new ConfigStore(Missing, false);
    var host := Host("freebsd", LookupFailed, FileAbsent);
    var argv := ["node", "cli.js", "local"];
    var key := JsText.Trim(answer);
    LocalModeArgs();
    FirstLocalLaunchSavesKey(answer);

    var first, _ := RunLauncher(argv, None, host, parse, now, refreshReads, now, answer, store);
    assert first == Spawn(CLAUDE, [], LOCAL_BASE_URL, key);
    assert store.file == Saved(Config(None, Some(key)));

    var second, _ := RunLauncher(argv, None, host, parse, now, refreshReads, now, "", store);
    assert second == Spawn(CLAUDE, [], LOCAL_BASE_URL, key);
  }
}
