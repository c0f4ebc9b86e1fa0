/** src/cli.ts, refreshOAuthToken: the one bounded refresh attempt made before launch.

    Spawning `claude`, sleeping and killing it are effects this model does not perform:
    the credential store is an oracle `observed` (read 0 is the snapshot taken before the
    spawn, read k the k-th poll), the clock reading taken by the final expiry check is the
    parameter `now`, and the helper process's life is a ghost trace of events. */
module Refresh {
  import opened Wrappers
  import opened Keychain

  const MAX_WAIT_MS := 10000
  const POLL_INTERVAL_MS := 100
  const MAX_POLLS := MAX_WAIT_MS / POLL_INTERVAL_MS

  /** What each read of the credential store returns during one refresh attempt. */
  type StoreReads = nat -> Option<Credentials>

  /** What happens to the helper `claude` process, in order. */
  datatype HelperEvent = ReadBaseline | SpawnHelper | ReadStore(poll: nat) | KillHelper | AwaitHelperExit

  /** The three ways an attempt ends; only `Refreshed` hands a token back. */
  datatype RefreshOutcome = Refreshed(token: OAuthToken) | StillExpired(token: OAuthToken) | TimedOut
  {
    /** The value refreshOAuthToken returns: the token on success, `null` otherwise. */
    function Result(): (r: Option<OAuthToken>)
      ensures r.Some? <==> Refreshed?
      ensures r.Some? ==> r.value == token
    {
      if Refreshed? then Some(token) else None
    }
  }

  /** `currentCredentials?.claudeAiOauth?.expiresAt ?? 0`. */
  function BaselineExpiry(current: Option<Credentials>): (e: int)
    ensures TokenOf(current).None? ==> e == 0
    ensures TokenOf(current).Some? ==> e == TokenOf(current).value.expiresAt
  {
    if current.Some? && current.value.claudeAiOauth.Some? then current.value.claudeAiOauth.value.expiresAt else 0
  }

  /** The loop's exit test: a token is present and its expiry differs from the baseline. */
  predicate ExpiryChanged(read: Option<Credentials>, baseline: int)
  {
    TokenOf(read).Some? && TokenOf(read).value.expiresAt != baseline
  }

  /** The first poll, from `from` up to the last one, that sees a changed expiry. */
  function FirstChangedPoll(observed: StoreReads, baseline: int, from: nat): (r: Option<nat>)
    ensures r.Some? ==> from <= r.value <= MAX_POLLS && ExpiryChanged(observed(r.value), baseline)
    ensures r.Some? ==> forall k :: from <= k < r.value ==> !ExpiryChanged(observed(k), baseline)
    ensures r.None? ==> forall k :: from <= k <= MAX_POLLS ==> !ExpiryChanged(observed(k), baseline)
    decreases MAX_POLLS + 1 - from
  {
    if from > MAX_POLLS then None
    else if ExpiryChanged(observed(from), baseline) then Some(from)
    else FirstChangedPoll(observed, baseline, from + 1)
  }

  /** The number of polls made: up to and including the first change, or all of them. */
  function PollsMade(observed: StoreReads): (n: nat)
    ensures 1 <= n <= MAX_POLLS
  {
    match FirstChangedPoll(observed, BaselineExpiry(observed(0)), 1)
    case None => MAX_POLLS
    case Some(k) => k
  }

  /** The outcome of one attempt, as a function of what the store shows and the clock. */
  function RefreshSpec(observed: StoreReads, now: int): RefreshOutcome
  {
    match FirstChangedPoll(observed, BaselineExpiry(observed(0)), 1)
    case None => TimedOut
    case Some(k) =>
      var token := TokenOf(observed(k)).value;
      if IsTokenExpired(token, now, false) then StillExpired(token) else Refreshed(token)
  }

  /** The reads of the first `n` polls, in order. */
  function PollTrace(n: nat): (t: seq<HelperEvent>)
    ensures |t| == n && forall i :: 0 <= i < n ==> t[i] == ReadStore(i + 1)
  {
    if n == 0 then [] else PollTrace(n - 1) + [ReadStore(n)]
  }

  /** The helper is killed once, after every read of the store, and awaited before return. */
  predicate StoppedBeforeReturn(trace: seq<HelperEvent>)
  {
    && |trace| >= 2
    && trace[|trace| - 2] == KillHelper
    && trace[|trace| - 1] == AwaitHelperExit
    && forall i :: 0 <= i < |trace| - 2 ==> trace[i] != KillHelper && trace[i] != AwaitHelperExit
  }

  /** Every run of the attempt, however many polls it makes, stops the helper before it
      returns. */
  lemma AttemptStopsHelper(polls: nat)
    ensures StoppedBeforeReturn([ReadBaseline, SpawnHelper] + PollTrace(polls) + [KillHelper, AwaitHelperExit])
  {
  }

  /** A single poll sequence that changes first at poll `k` has `k` as its first change. */
  lemma FirstChangedPollIs(observed: StoreReads, baseline: int, k: nat)
    requires 1 <= k <= MAX_POLLS && ExpiryChanged(observed(k), baseline)
    requires forall j :: 1 <= j < k ==> !ExpiryChanged(observed(j), baseline)
    ensures FirstChangedPoll(observed, baseline, 1) == Some(k)
  {
  }

  /** A successful attempt never hands back an expired token; an expired candidate is
      reported as StillExpired. */
  lemma RefreshedTokenIsUnexpired(observed: StoreReads, now: int, debug: bool)
    ensures RefreshSpec(observed, now).Refreshed? ==> !IsTokenExpired(RefreshSpec(observed, now).token, now, debug)
    ensures RefreshSpec(observed, now).StillExpired? ==> IsTokenExpired(RefreshSpec(observed, now).token, now, debug)
    ensures RefreshSpec(observed, now).Result().Some? ==> !IsTokenExpired(RefreshSpec(observed, now).Result().value, now, debug)
  {
  }

  /** The candidate is the token of the earliest poll whose expiry differs from the baseline:
      that poll is the last one made and no earlier poll saw a change. */
  lemma CandidateIsFirstChange(observed: StoreReads, now: int)
    requires !RefreshSpec(observed, now).TimedOut?
    ensures var n := PollsMade(observed);
            && TokenOf(observed(n)) == Some(RefreshSpec(observed, now).token)
            && RefreshSpec(observed, now).token.expiresAt != BaselineExpiry(observed(0))
            && forall j :: 1 <= j < n ==> !ExpiryChanged(observed(j), BaselineExpiry(observed(0)))
  {
  }

  /** The attempt times out exactly when none of the polls sees a changed expiry, and then
      it has polled for the whole budget. */
  lemma TimedOutIffNoChange(observed: StoreReads, now: int)
    ensures RefreshSpec(observed, now).TimedOut?
        <==> forall k :: 1 <= k <= MAX_POLLS ==> !ExpiryChanged(observed(k), BaselineExpiry(observed(0)))
    ensures RefreshSpec(observed, now).TimedOut? ==> PollsMade(observed) == MAX_POLLS
  {
  }

  /** With no token before the spawn the baseline is 0, so the first poll that shows a token
      with a non-zero expiry ends the loop; earlier polls may show no token or a token whose
      expiry is 0. */
  lemma NoTokenMeansZeroBaseline(observed: StoreReads, k: nat)
    requires TokenOf(observed(0)).None?
    requires 1 <= k <= MAX_POLLS && TokenOf(observed(k)).Some? && TokenOf(observed(k)).value.expiresAt != 0
    requires forall j :: 1 <= j < k ==> !ExpiryChanged(observed(j), 0)
    ensures PollsMade(observed) == k
  {
    FirstChangedPollIs(observed, 0, k);
  }

  /** Change detection looks at `expiresAt` only: a refresh that yields a new token with the
      same expiry is not seen, and the attempt times out. */
  lemma SameExpiryIsNotARefresh(observed: StoreReads, now: int)
    requires TokenOf(observed(0)).Some?
    requires forall k :: 1 <= k <= MAX_POLLS ==>
               TokenOf(observed(k)).Some? ==> TokenOf(observed(k)).value.expiresAt == TokenOf(observed(0)).value.expiresAt
    ensures RefreshSpec(observed, now) == TimedOut
  {
  }

  /** A token expired a second ago stays unchanged for the whole budget: timeout after 100
      polls. */
  lemma ScenarioUnchangedTokenTimesOut(token: OAuthToken, now: int)
    requires token.expiresAt == now - 1000
    ensures var observed: StoreReads := _ => Some(Credentials(Some(token)));
            RefreshSpec(observed, now) == TimedOut && PollsMade(observed) == MAX_POLLS
  {
  }

  /** The store shows a token valid for another hour from the third poll on: success with that
      token after three polls (300 ms). */
  lemma ScenarioRefreshOnThirdPoll(stale: OAuthToken, renewed: OAuthToken, now: int)
    requires renewed.expiresAt == stale.expiresAt + 3600000 && now <= renewed.expiresAt
    ensures var observed: StoreReads := k => if k < 3 then Some(Credentials(Some(stale))) else Some(Credentials(Some(renewed)));
            RefreshSpec(observed, now) == Refreshed(renewed) && POLL_INTERVAL_MS * PollsMade(observed) == 300
  {
  }

  method RefreshOAuthToken(debug: bool, observed: StoreReads, now: int)
    returns (outcome: RefreshOutcome, ghost elapsedMs: nat, ghost trace: seq<HelperEvent>)
    ensures outcome == RefreshSpec(observed, now)
    ensures elapsedMs == POLL_INTERVAL_MS * PollsMade(observed)
    ensures trace == [ReadBaseline, SpawnHelper] + PollTrace(PollsMade(observed)) + [KillHelper, AwaitHelperExit]
  {
    trace := [ReadBaseline];
    var currentCredentials := observed(0);
    var currentExpiry := if currentCredentials.Some? && currentCredentials.value.claudeAiOauth.Some?
                         then currentCredentials.value.claudeAiOauth.value.expiresAt else 0;
    trace := trace + [SpawnHelper];

    var elapsed := 0;
    var refreshedToken: Option<OAuthToken> := None;
    ghost var polls: nat := 0;
    while elapsed < MAX_WAIT_MS
      invariant elapsed == POLL_INTERVAL_MS * polls && polls <= MAX_POLLS
      invariant forall k :: 1 <= k <= polls ==> !ExpiryChanged(observed(k), currentExpiry)
      invariant trace == [ReadBaseline, SpawnHelper] + PollTrace(polls)
      invariant refreshedToken.None?
    {
      elapsed := elapsed + POLL_INTERVAL_MS;
      polls := polls + 1;
      assert elapsed / POLL_INTERVAL_MS == polls;
      var creds := observed(elapsed / POLL_INTERVAL_MS);
      trace := trace + [ReadStore(polls)];
      if creds.Some? && creds.value.claudeAiOauth.Some? && creds.value.claudeAiOauth.value.expiresAt != currentExpiry {
        refreshedToken := creds.value.claudeAiOauth;
        FirstChangedPollIs(observed, currentExpiry, polls);
        break;
      }
    }

    trace := trace + [KillHelper];
    trace := trace + [AwaitHelperExit];
    elapsedMs := elapsed;

    if refreshedToken.None? {
      assert FirstChangedPoll(observed, currentExpiry, 1).None?;
      outcome := TimedOut;
      return;
    }
    if IsTokenExpired(refreshedToken.value, now, debug) {
      outcome := StillExpired(refreshedToken.value);
      return;
    }
    outcome := Refreshed(refreshedToken.value);
  }
}
