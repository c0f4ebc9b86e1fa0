# Launcher credential broker: a Dafny model

This project models the decision logic of `claude-code-infinite`, a small launcher that starts
the `claude` CLI against the Polychat/MemTree endpoint. Before launching, the launcher:

- reads Claude Code's OAuth token from the platform's credential store (the macOS keychain,
  or `~/.claude/.credentials.json` on Windows and Linux);
- when the token is expired, or when `DEBUG_FORCE_EXPIRED=1` is set, makes one bounded refresh
  attempt: it spawns `claude`, polls the store every 100 ms for up to 10 000 ms until the
  token's `expiresAt` changes, kills the helper, and accepts the new token only if it is not
  expired;
- resolves the Polychat API key of the selected mode (production or `local`) from
  `~/.claude-code-infinite/config.json`, asking the user and saving the answer when none is stored;
- launches `claude` with `ANTHROPIC_BASE_URL` set to the mode's endpoint and
  `ANTHROPIC_AUTH_TOKEN` set to `accessToken,key` (or to `key` alone without OAuth).

Modules, one for each of src/keychain.ts and src/config.ts, two for src/cli.ts (`Refresh` for `refreshOAuthToken`, `Launcher` for `main`), plus two helpers:

- `Wrappers` (wrappers.dfy): `Option`.
- `JsText` (js_text.dfy): ECMAScript `String.prototype.trim`, used on the keychain output and on the pasted key.
- `Keychain` (keychain.dfy, src/keychain.ts):
  - the token and record types;
  - the two soft-failure readers;
  - `getOAuthToken`'s platform dispatch;
  - `isTokenExpired`.
- `Configuration` (config.dfy, src/config.ts): the key store, a `ConfigStore` class whose `file` field is the abstract file state. Its setters read the file, replace one field and rewrite the file whole.
- `Refresh` (refresh.dfy, src/cli.ts `refreshOAuthToken`):
  - the polling loop as a method with loop invariants, proved equal to the specification function `RefreshSpec`;
  - the helper process's life as a ghost event trace.
- `Launcher` (launcher.dfy, src/cli.ts `main`):
  - argument handling;
  - the refresh trigger and its fallback;
  - key resolution;
  - the composite bearer value;
  - the endpoint choice;
  - `RunLauncher`, the whole of `main` up to the spawn;
  - a client, `LocalKeyIsRememberedAcrossLaunches`, that runs two local-mode launches on one store and shows that the second finds the key the first saved.

Inputs that come from the outside world are parameters:

- the platform name and what each store holds (`Host`);
- `JSON.parse`, an oracle that yields `None` where it would throw;
- the clock readings (`now`, `nowAfterRefresh`);
- what the credential store shows at each read during a refresh (`StoreReads`: read 0 is the snapshot before the spawn, read k is the k-th poll);
- the text the user pastes at the prompt.

Two facts about the code shape the model:

- A failed refresh always continues without OAuth (src/cli.ts:157-162). No mode requires OAuth.
- The refresh helper runs with its standard I/O ignored (src/cli.ts:65-68), so nothing it prints or reads is modelled.

## Model

| member | source | states |
|---|---|---|
| `JsText.Trim` | src/keychain.ts:54 | the result has no whitespace at either end and is no longer than the input |
| `JsText.TrimRecoversText` | src/cli.ts:49 | trimming any whitespace-surrounded text whose ends are not whitespace gives back exactly that text |
| `JsText.TrimIdempotent` | src/cli.ts:49 | trimming twice equals trimming once |
| `Keychain.CredentialsFromFile` | src/keychain.ts:19-39 | a record comes back only when the file exists, is readable and parses; a missing, unreadable or unparsable file gives `None`, never an error |
| `Keychain.CredentialsFromKeychain` | src/keychain.ts:41-63 | a record comes back only when the lookup succeeds and its trimmed output parses; a failed lookup or parse inside the `try` gives `None` (the `userInfo()` call before it is not modelled, see Left out) |
| `Keychain.GetOAuthToken` | src/keychain.ts:65-96 | darwin yields the keychain reader's result, win32 and linux the file reader's, every other platform `None` |
| `Keychain.TokenOf` | src/cli.ts:148 | the token is present exactly when a record was read and holds `claudeAiOauth` |
| `Keychain.IsTokenExpired` | src/keychain.ts:98-110 | a token is expired when the clock is strictly past `expiresAt`; its properties are the `Expiry…` lemmas |
| `Keychain.DarwinReadsOnlyKeychain` | src/keychain.ts:68-69 | on darwin two hosts with the same keychain give the same result whatever their credentials files hold |
| `Keychain.FilePlatformReadsOnlyFile` | src/keychain.ts:70-71 | on win32/linux two hosts with the same credentials file give the same result whatever their keychains hold |
| `Keychain.UnsupportedPlatformHasNoCredentials` | src/keychain.ts:72-75 | any other platform reads `None` |
| `Keychain.GetOAuthTokenIgnoresDebug` | src/keychain.ts:77-95 | the debug flag never changes the record returned |
| `Keychain.ExpiryBoundary` | src/keychain.ts:98-100 | a token is not expired at `now == expiresAt` and is expired at `expiresAt + 1` |
| `Keychain.ExpiryIsMonotone` | src/keychain.ts:98-100 | a token expired at some instant stays expired at every later instant |
| `Keychain.ExpiryDependsOnlyOnExpiresAt` | src/keychain.ts:98-110 | two tokens with the same `expiresAt` get the same verdict, whatever their other fields and debug flags |
| `Keychain.GetOAuthTokenAsWritten` | src/keychain.ts:77-95 | with debug on, the read throws exactly when a token is present whose `expiresAt` is outside the `Date` range; otherwise it returns what `GetOAuthToken` returns |
| `Keychain.IsTokenExpiredAsWritten` | src/keychain.ts:98-110 | with debug on, the check throws exactly when `expiresAt` is outside the `Date` range; otherwise it answers `now > expiresAt` |
| `Keychain.DebugReadCanThrow` | src/keychain.ts:85 | a Linux host whose token expires at 8.64e15 + 1: read without debug it is returned, with debug the read throws |
| `Keychain.DebugExpiryCheckCanThrow` | src/keychain.ts:105 | the same token's expiry check answers without debug and throws with it |
| `Configuration.LoadConfig` | src/config.ts:17-28 | a missing or unparsable file loads as `{}`; a saved file loads as the record saved |
| `Configuration.WithPolychatApiKey` | src/config.ts:42-46 | the file after `setPolychatApiKey`: the loaded record with only the production key replaced, saved whole |
| `Configuration.WithLocalPolychatApiKey` | src/config.ts:52-56 | the file after `setLocalPolychatApiKey`: the loaded record with only the local key replaced, saved whole |
| `Configuration.LoadAfterSave` | src/config.ts:30-36 | after a save, loading returns exactly the record saved |
| `Configuration.SetPolychatApiKeyEffect` | src/config.ts:42-46 | after setting the production key it reads back as set, and the local key is unchanged |
| `Configuration.SetLocalPolychatApiKeyEffect` | src/config.ts:52-56 | after setting the local key it reads back as set, and the production key is unchanged |
| `Configuration.SettersCommute` | src/config.ts:42-56 | setting the production key and the local key in either order gives the same file |
| `Configuration.LastSetWins` | src/config.ts:42-56 | setting the same key twice equals setting it once to the later value |
| `Configuration.ConfigStore.SaveConfig` | src/config.ts:30-36 | the directory exists afterwards and the file holds exactly the record saved |
| `Configuration.ConfigStore.GetPolychatApiKey` | src/config.ts:38-40 | the stored production key, absent when the file is missing or unparsable |
| `Configuration.ConfigStore.GetLocalPolychatApiKey` | src/config.ts:48-50 | the stored local key, absent when the file is missing or unparsable |
| `Configuration.ConfigStore.SetPolychatApiKey` | src/config.ts:42-46 | the file becomes the loaded record with only the production key replaced; the getter then returns the key and the local getter is unchanged |
| `Configuration.ConfigStore.SetLocalPolychatApiKey` | src/config.ts:52-56 | the file becomes the loaded record with only the local key replaced; the local getter then returns the key and the production getter is unchanged |
| `Refresh.BaselineExpiry` | src/cli.ts:58-59 | the baseline is the current token's `expiresAt`, or 0 when no token is present |
| `Refresh.ExpiryChanged` | src/cli.ts:81-82 | a poll ends the loop when it shows a token whose `expiresAt` differs from the baseline |
| `Refresh.FirstChangedPoll` | src/cli.ts:77-89 | the earliest poll within the 100-poll budget whose token's expiry differs from the baseline; `None` exactly when no poll in the budget shows a change |
| `Refresh.RefreshSpec` | src/cli.ts:77-120 | the attempt's outcome: a timeout when no poll changes, otherwise the first changed token, reported as refreshed when unexpired at the clock reading and as still expired otherwise |
| `Refresh.PollsMade` | src/cli.ts:72-80 | the store is re-read between 1 and 10000/100 = 100 times |
| `Refresh.AttemptStopsHelper` | src/cli.ts:91-101 | in every run, the helper is killed after the last read and awaited before returning, and neither happens earlier |
| `Refresh.RefreshedTokenIsUnexpired` | src/cli.ts:113-120 | a success is never expired at the clock reading; an expired candidate is reported as still expired; a non-null result is never expired |
| `Refresh.CandidateIsFirstChange` | src/cli.ts:81-88 | when a candidate is found, it is the token of the last poll made, its expiry differs from the baseline, and no earlier poll saw a change |
| `Refresh.TimedOutIffNoChange` | src/cli.ts:107-111 | the attempt times out exactly when none of the 100 polls sees a changed expiry, and then all 100 polls were made |
| `Refresh.NoTokenMeansZeroBaseline` | src/cli.ts:58-59 | with no token before the spawn the baseline is 0: the first poll showing a token with non-zero expiry ends the loop, whether earlier polls showed no token or a token expiring at 0 |
| `Refresh.SameExpiryIsNotARefresh` | src/cli.ts:82 | if every poll's token keeps the baseline expiry, the attempt times out even if other fields of the token changed |
| `Refresh.ScenarioUnchangedTokenTimesOut` | src/cli.ts:72-111 | a token expired 1000 ms ago that never changes gives a timeout after 100 polls |
| `Refresh.ScenarioRefreshOnThirdPoll` | src/cli.ts:72-120 | a token valid for another hour appearing at the third poll is returned after 300 ms |
| `Refresh.RefreshOAuthToken` | src/cli.ts:54-121 | the loop's outcome equals `RefreshSpec`. `elapsed` is 100 times the polls made, at most 10000 ms. The helper trace is: snapshot, spawn, one read per poll, kill, exit-wait |
| `Launcher.UserArgs` | src/cli.ts:129 | the arguments after the first two of argv, and none when argv is shorter |
| `Launcher.WithoutDebugFlag` | src/cli.ts:132 | the result holds exactly the arguments other than `--debug` |
| `Launcher.WithoutDebugFlagDistributes` | src/cli.ts:132 | filtering a concatenation equals concatenating the filtered parts, so order is kept |
| `Launcher.WithoutDebugFlagDropsOnlyDebug` | src/cli.ts:132 | the result is shorter by exactly the number of `--debug` occurrences, and unchanged when there are none |
| `Launcher.ParseArgs` | src/cli.ts:129-134 | debug iff `--debug` occurs. Local mode iff the first remaining argument is `local`. The forwarded arguments are the remaining ones, minus that first `local` in local mode |
| `Launcher.ParseArgsExamples` | src/cli.ts:129-134 | `--debug local --resume` gives debug, local and `[--resume]`; `-p local` is not local mode; no arguments gives neither |
| `Launcher.ForceRefresh` | src/cli.ts:131 | a refresh is forced exactly when `DEBUG_FORCE_EXPIRED` is `1` |
| `Launcher.RefreshTrigger` | src/cli.ts:150-156 | a refresh is attempted exactly when a token was found and it is expired or a refresh is forced |
| `Launcher.OAuthForLaunch` | src/cli.ts:147-166 | the token found, unless a refresh is attempted; then the refreshed token, or none when the refresh fails |
| `Launcher.RefreshFailureDropsOAuth` | src/cli.ts:157-162 | when a refresh is attempted and does not succeed, the launch continues with no OAuth token |
| `Launcher.NoTokenNoOAuth` | src/cli.ts:150-155 | with no token found, no refresh is attempted and the launch has no OAuth token |
| `Launcher.LaunchTokenIsUnexpired` | src/cli.ts:147-166 | the OAuth token handed to the launch was never already expired at main's clock reading, provided the clock did not go back during the refresh |
| `Launcher.UnsupportedPlatformUsesKeyOnly` | src/cli.ts:186-188 | on an unsupported platform the bearer value is the API key alone |
| `Launcher.StoredKey` | src/cli.ts:169 | local mode reads the local key, production mode the production key |
| `Launcher.KeyPresent` | src/cli.ts:171 | an absent key and an empty key both count as missing |
| `Launcher.ResolvedKey` | src/cli.ts:169-183 | a non-empty stored key is used. Otherwise the trimmed prompt answer is used, and none (an abort) when that answer is empty. A resolved key is never empty |
| `Launcher.FileAfterKeyResolution` | src/cli.ts:171-181 | the config file is rewritten only when a prompted non-empty key is saved, and then only in the selected mode's namespace |
| `Launcher.PromptedKeyIsRemembered` | src/cli.ts:177-181 | after a key was resolved and saved, the next launch in the same mode resolves the same key whatever it would answer |
| `Launcher.CompositeTokenSplits` | src/cli.ts:186-188 | with OAuth the bearer value splits at its first comma into the access token and the key (if the access token has no comma); without OAuth it is the key alone, and reads back as a bare key when the key has no comma |
| `Launcher.KeyWithCommaLooksLikeOAuth` | src/cli.ts:186-188 | without OAuth, a key `a,b` gives the same bearer value as OAuth with access token `a` and key `b`, and splits the same way |
| `Launcher.CompositeToken` | src/cli.ts:186-188 | the bearer value: `accessToken,key` with OAuth, the key alone without it |
| `Launcher.BaseUrl` | src/cli.ts:191 | the endpoint is `http://localhost:8080/cc` exactly in local mode and `https://polychat.co/cc` exactly otherwise |
| `Launcher.LocalModeArgs` | src/cli.ts:129-134 | `node cli.js local` selects local mode with no debug output and nothing to forward |
| `Launcher.PastedKeyIsTrimmed` | src/cli.ts:49 | a key pasted as `  key-123` plus a newline is kept as `key-123` |
| `Launcher.FirstLocalLaunchSavesKey` | src/cli.ts:169-181 | with no config file, a local launch uses the trimmed non-empty answer and saves it as the local key only |
| `Launcher.LocalKeyIsRememberedAcrossLaunches` | src/cli.ts:169-188 | two local-mode launches on a fresh store: the first spawns with the trimmed answer and saves it as the local key, the second spawns with the same key even when it would answer nothing |
| `Launcher.RunLauncher` | src/cli.ts:127-191 | a refresh is attempted iff a token was found and it is expired or forced. It aborts with exit code 1 iff no key can be resolved. Otherwise it spawns `claude` with the forwarded args, the mode's endpoint and the composite token. The config file changes only by saving a prompted key in the mode's own namespace, and the config directory exists afterwards exactly when it existed before or a key was saved |

## Left out

- Process handling is not performed: spawning `claude` (for the refresh and for the launch), `SIGTERM`, and the `exit`/`error` handlers. The refresh helper's life is the ghost event trace of `Refresh.RefreshOAuthToken`.
- The launched program's exit code, and the distinct message for a missing `claude` binary (ENOENT), are not modelled: they depend on the operating system.
- Real time is not modelled. `setTimeout` sleeps are replaced by the poll counter, and `elapsed` counts nominal 100 ms steps, as the source's variable does. `Date.now()` readings are parameters.
- The interactive prompt and opening the browser (`promptForApiKey`, `openUrl`) are not modelled. The pasted answer is a parameter.
- The keychain command line (service name, username quoting), the file paths, and `JSON.parse`/`JSON.stringify` are external I/O. Parsing is an oracle. The config file round-trips through the abstract state `Saved(config)`.
- The distinction between "not found in keychain" and other keychain errors only selects a log message and is not modelled.
- Debug and status output is not modelled: the banner, ANSI messages, and the minute rounding and ISO dates in debug logs. The exception is the throwing `toISOString` call described under Findings.
- `getConfigDir` only returns a constant path and is not modelled.
- Keychain.OAuthToken: `expiresAt` is an unbounded integer, not a JavaScript double. Records missing fields, or with non-number `expiresAt`, are not modelled.
- Configuration.LoadConfig: a config file whose JSON is not an object (for example `null`) is not modelled. Fields other than the two keys, which JavaScript would keep on rewrite, are not modelled either.
- Keychain.CredentialsFromKeychain: the `userInfo()` call at src/keychain.ts:42 sits before the `try`, and Node lets it throw when the user has no username or home directory. That error escapes `getOAuthToken`. The model assumes the user lookup succeeds.
- Configuration.ConfigStore.SaveConfig: `mkdirSync` and `writeFileSync` (src/config.ts:31-35) can throw, for example on a read-only home directory. Called from src/cli.ts:178-180, that ends the launch after the key was prompted. The model's save always succeeds.
- Concurrency between launcher instances is not modelled. The source does not lock the key file, and the last writer wins.

## Findings

| source | as written | input that shows it | evidently intended | confidence | as-written member | corrected member |
|---|---|---|---|---|---|---|
| src/keychain.ts:85 | with `--debug`, the log line calls `new Date(expiresAt).toISOString()`. This throws a RangeError outside the `Date` range. Nothing in `getOAuthToken` catches it; `main().catch(console.error)` at src/cli.ts:217 logs it, `claude` is never spawned, and the process exits with status 0 | a stored token with `expiresAt = 8640000000000001` and `--debug` | debug output never changes what `getOAuthToken` returns | low (needs an out-of-range timestamp); not executed | `Keychain.GetOAuthTokenAsWritten`, shown by `Keychain.DebugReadCanThrow` | `Keychain.GetOAuthToken`, with `Keychain.GetOAuthTokenIgnoresDebug` |
| src/keychain.ts:105 | with `--debug`, the expiry check logs `new Date(token.expiresAt).toISOString()`, which throws for the same timestamps; reached through src/cli.ts:113 when a refreshed token is checked, it ends `main` the same way | the same token with `--debug` | the verdict is `now > expiresAt` whatever the debug flag | low (needs an out-of-range timestamp); not executed | `Keychain.IsTokenExpiredAsWritten`, shown by `Keychain.DebugExpiryCheckCanThrow` | `Keychain.IsTokenExpired`, with `Keychain.ExpiryDependsOnlyOnExpiresAt` |
