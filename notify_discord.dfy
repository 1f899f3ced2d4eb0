/**
 * The start-notification function: when the game server's EC2 instance enters the
 * `running` state, it reads the Discord webhook from a secret, waits a bounded time for
 * the instance's public IP and status checks, and posts one message to the webhook.
 *
 * The AWS calls, the clock and the HTTP post are inputs and outputs here: the secret
 * lookup is a `SecretFetch`, the EC2 lookups of round `i` are `ipAt(i)` and
 * `statusAt(i)`, the clock reading at the `i`-th loop test is `clock(i)`, and the post
 * is the returned `Posted` value.
 */
module NotifyDiscord {
  import opened Wrappers
  import opened Text
  import Config

  /** JavaScript truthiness of a `string | undefined`: present and not empty. */
  predicate IsSet(v: Option<string>) {
    v.Some? && v.value != ""
  }

  // ---------------------------------------------------------------------------
  // The webhook secret

  /** The outcome of reading the secret: the call threw, or it returned a possibly absent string. */
  datatype SecretFetch = FetchFailed | Fetched(secretString: Option<string>)

  /** Secret values that mean "Discord is not configured", once trimmed. */
  predicate IsDisabledMarker(s: string) {
    s == "" || s == "None" || s == "null"
  }

  /**
   * `getWebhookUrl`: the trimmed secret string, unless the lookup failed, returned no
   * string, or returned one of the disabled markers. A webhook it returns is trimmed,
   * not empty and not a marker.
   */
  function GetWebhookUrl(fetch: SecretFetch): (r: Option<string>)
    ensures r.Some? ==> fetch.Fetched? && fetch.secretString.Some? && r.value == Trim(fetch.secretString.value)
    ensures r.Some? ==> !IsDisabledMarker(r.value) && Trim(r.value) == r.value
  {
    match fetch
    case FetchFailed => None
    case Fetched(None) => None
    case Fetched(Some(raw)) =>
      var s := Trim(raw);
      TrimIdempotent(raw);
      if IsDisabledMarker(s) then None else Some(s)
  }

  /** Discord is off exactly when the lookup failed, gave no string, or gave a marker. */
  lemma WebhookDisabledIff(fetch: SecretFetch)
    ensures GetWebhookUrl(fetch).None? <==>
      fetch.FetchFailed? || fetch.secretString.None? || IsDisabledMarker(Trim(fetch.secretString.value))
  {
  }

  /**
   * Whitespace around a webhook URL is ignored, and a URL read back from a secret that
   * already holds it in normal form is returned unchanged.
   */
  lemma PaddedWebhook(p: string, url: string, q: string)
    requires AllSpace(p) && AllSpace(q)
    requires |url| > 0 && !IsSpace(url[0]) && !IsSpace(url[|url| - 1]) && !IsDisabledMarker(url)
    ensures GetWebhookUrl(Fetched(Some(p + url + q))) == Some(url)
  {
    TrimPadded(p, url, q);
  }

  lemma WebhookStable(fetch: SecretFetch)
    ensures var r := GetWebhookUrl(fetch); r.Some? ==> GetWebhookUrl(Fetched(Some(r.value))) == r
  {
    var r := GetWebhookUrl(fetch);
    if r.Some? {
      assert Trim(r.value) == r.value && !IsDisabledMarker(r.value);
    }
  }

  // ---------------------------------------------------------------------------
  // The event, the environment and the settings

  /** The `detail` of an EC2 instance state-change event. */
  datatype Detail = Detail(instanceId: Option<string>, state: Option<string>)
  datatype Event = Event(detail: Option<Detail>)

  function EventInstanceId(e: Event): Option<string> {
    if e.detail.Some? then e.detail.value.instanceId else None
  }

  function EventState(e: Event): Option<string> {
    if e.detail.Some? then e.detail.value.state else None
  }

  /**
   * The function's environment variables. MAX_WAIT_SECONDS and POLL_SECONDS are given
   * as the integer `Number(...)` reads, or None when the variable is unset or empty.
   */
  datatype Env = Env(
    instanceId: Option<string>,
    secretArn: Option<string>,
    serverPort: Option<string>,
    maxWaitSeconds: Option<int>,
    pollSeconds: Option<int>)

  /** The event is about this function's instance, and that instance is now running. */
  function IsOwnRunningEvent(event: Event, env: Env): (b: bool)
    ensures b <==> event.detail.Some? && event.detail.value.state == Some("running")
                   && event.detail.value.instanceId == env.instanceId
  {
    EventInstanceId(event) == env.instanceId && EventState(event) == Some("running")
  }

  const DefaultServerPort := "5520"
  const DefaultMaxWaitSeconds := 45
  const DefaultPollSeconds := 5

  /** SERVER_PORT, or "5520" when it is unset or empty. */
  function ServerPort(env: Env): (r: string)
    ensures r != ""
    ensures IsSet(env.serverPort) ==> r == env.serverPort.value
    ensures !IsSet(env.serverPort) ==> r == DefaultServerPort
  {
    if IsSet(env.serverPort) then env.serverPort.value else DefaultServerPort
  }

  /** The default port is the game's UDP port. */
  lemma DefaultPortIsGamePort()
    ensures DefaultServerPort == NatToString(Config.HytaleUdpPort)
  {
    assert NatToString(5) == "5";
    assert NatToString(55) == "55";
    assert NatToString(552) == "552";
  }

  /** `Math.max(0, n)`: n when it is not negative, otherwise 0. */
  function ClampWait(n: int): (r: nat)
    ensures r >= n && (r == n || r == 0)
  {
    if n < 0 then 0 else n
  }

  /** `Math.max(1, Math.min(10, n))`: n when it lies in 1..10, otherwise the nearer bound. */
  function ClampPoll(n: int): (r: int)
    ensures 1 <= r <= 10
    ensures 1 <= n <= 10 ==> r == n
    ensures n < 1 ==> r == 1
    ensures n > 10 ==> r == 10
  {
    if n < 1 then 1 else if n > 10 then 10 else n
  }

  /** The handler's `maxWaitSeconds`: MAX_WAIT_SECONDS, or 45 when unset, and never below 0. */
  function MaxWaitSeconds(env: Env): (r: nat)
    ensures env.maxWaitSeconds.None? ==> r == DefaultMaxWaitSeconds
    ensures env.maxWaitSeconds.Some? && env.maxWaitSeconds.value >= 0 ==> r == env.maxWaitSeconds.value
    ensures env.maxWaitSeconds.Some? && env.maxWaitSeconds.value < 0 ==> r == 0
  {
    ClampWait(env.maxWaitSeconds.GetOr(DefaultMaxWaitSeconds))
  }

  /** The handler's `pollSeconds`: POLL_SECONDS, or 5 when unset, held within 1 to 10. */
  function PollSeconds(env: Env): (r: int)
    ensures 1 <= r <= 10
    ensures env.pollSeconds.None? ==> r == DefaultPollSeconds
    ensures env.pollSeconds.Some? && 1 <= env.pollSeconds.value <= 10 ==> r == env.pollSeconds.value
    ensures env.pollSeconds.Some? && env.pollSeconds.value < 1 ==> r == 1
    ensures env.pollSeconds.Some? && env.pollSeconds.value > 10 ==> r == 10
  {
    ClampPoll(env.pollSeconds.GetOr(DefaultPollSeconds))
  }

  /** Whatever the environment holds, the wait is never negative and the poll interval is 1 to 10 seconds. */
  lemma SettingsInRange(env: Env)
    ensures MaxWaitSeconds(env) >= 0 && 1 <= PollSeconds(env) <= 10
    ensures env.maxWaitSeconds.None? ==> MaxWaitSeconds(env) == 45
    ensures env.pollSeconds.None? ==> PollSeconds(env) == 5
  {
  }

  // ---------------------------------------------------------------------------
  // Waiting for the instance

  /** The result of DescribeInstances: the call failed, or the first instance's public IP (maybe absent). */
  datatype IpLookup = IpFailed | IpFound(publicIpAddress: Option<string>)

  /** The result of DescribeInstanceStatus: the call failed, or the first entry's system and instance status. */
  datatype StatusLookup = StatusFailed | StatusFound(systemStatus: Option<string>, instanceStatus: Option<string>)

  /** `getPublicIp(...).catch(() => undefined)`. */
  function PublicIpOf(l: IpLookup): (r: Option<string>)
    ensures r.Some? ==> l == IpFound(r)
  {
    if l.IpFound? then l.publicIpAddress else None
  }

  /** `getEc2StatusOk(...).catch(() => false)`: both status checks report "ok". */
  function StatusOkOf(l: StatusLookup): (r: bool)
    ensures r <==> l == StatusFound(Some("ok"), Some("ok"))
  {
    l.StatusFound? && l.systemStatus == Some("ok") && l.instanceStatus == Some("ok")
  }

  /** The loop's exit test `publicIp && statusOk`. */
  predicate Ready(ip: Option<string>, ok: bool) {
    IsSet(ip) && ok
  }

  /** Every pass of the loop sleeps `pollMs`, so clock readings at successive loop tests are that far apart. */
  ghost predicate Advances(clock: nat -> int, pollMs: nat) {
    forall i: nat, j: nat :: j == i + 1 ==> clock(i) + pollMs <= clock(j)
  }

  datatype PollResult = PollResult(publicIp: Option<string>, statusOk: bool, rounds: nat)

  /**
   * The loop from its `i`-th test onwards, with `ip` and `ok` the values of the last
   * round: it stops when the clock is past the deadline, or after a round whose
   * lookups show a public IP and passing status checks.
   */
  function Poll(deadline: int, pollMs: nat, clock: nat -> int, ipAt: nat -> IpLookup, statusAt: nat -> StatusLookup,
                i: nat, ip: Option<string>, ok: bool): (r: PollResult)
    requires pollMs > 0 && Advances(clock, pollMs)
    ensures r.rounds >= i
    ensures r.rounds == i <==> clock(i) > deadline
    decreases if clock(i) <= deadline then deadline - clock(i) + 1 else 0
  {
    if clock(i) > deadline then PollResult(ip, ok, i)
    else
      var ip', ok' := PublicIpOf(ipAt(i)), StatusOkOf(statusAt(i));
      if Ready(ip', ok') then PollResult(ip', ok', i + 1)
      else Poll(deadline, pollMs, clock, ipAt, statusAt, i + 1, ip', ok')
  }

  /** The handler's `while` loop. */
  method PollUntilReady(deadline: int, pollMs: nat, clock: nat -> int, ipAt: nat -> IpLookup, statusAt: nat -> StatusLookup)
    returns (publicIp: Option<string>, statusOk: bool, rounds: nat)
    requires pollMs > 0 && Advances(clock, pollMs)
    ensures PollResult(publicIp, statusOk, rounds) == Poll(deadline, pollMs, clock, ipAt, statusAt, 0, None, false)
  {
    publicIp, statusOk, rounds := None, false, 0;
    while clock(rounds) <= deadline
      invariant Poll(deadline, pollMs, clock, ipAt, statusAt, rounds, publicIp, statusOk)
             == Poll(deadline, pollMs, clock, ipAt, statusAt, 0, None, false)
      decreases if clock(rounds) <= deadline then deadline - clock(rounds) + 1 else 0
    {
      publicIp, statusOk := PublicIpOf(ipAt(rounds)), StatusOkOf(statusAt(rounds));
      rounds := rounds + 1;
      if Ready(publicIp, statusOk) {
        break;
      }
    }
  }

  lemma {:induction false} ClockAdvance(clock: nat -> int, pollMs: nat, i: nat, j: nat)
    requires Advances(clock, pollMs) && i <= j
    ensures clock(i) + (j - i) * pollMs <= clock(j)
    decreases j - i
  {
    if i < j {
      ClockAdvance(clock, pollMs, i + 1, j);
      assert clock(i) + pollMs <= clock(i + 1);
      assert (j - i) * pollMs == pollMs + (j - (i + 1)) * pollMs;
    }
  }

  /**
   * How the loop leaves: because the instance was ready or the clock passed the
   * deadline, keeping the last round's values (those it started with if no round ran).
   */
  lemma {:induction false} PollExit(deadline: int, pollMs: nat, clock: nat -> int, ipAt: nat -> IpLookup,
                                    statusAt: nat -> StatusLookup, i: nat, ip: Option<string>, ok: bool)
    requires pollMs > 0 && Advances(clock, pollMs)
    ensures var r := Poll(deadline, pollMs, clock, ipAt, statusAt, i, ip, ok);
      && r.rounds >= i
      && (Ready(r.publicIp, r.statusOk) || clock(r.rounds) > deadline)
      && (r.rounds > i ==> r.publicIp == PublicIpOf(ipAt(r.rounds - 1)) && r.statusOk == StatusOkOf(statusAt(r.rounds - 1)))
      && (r.rounds == i ==> r.publicIp == ip && r.statusOk == ok)
    decreases if clock(i) <= deadline then deadline - clock(i) + 1 else 0
  {
    if clock(i) <= deadline {
      var ip', ok' := PublicIpOf(ipAt(i)), StatusOkOf(statusAt(i));
      if !Ready(ip', ok') {
        PollExit(deadline, pollMs, clock, ipAt, statusAt, i + 1, ip', ok');
      }
    }
  }

  /** Every round runs with the clock at or before the deadline, and no round but the last sees a ready instance. */
  lemma {:induction false} PollRounds(deadline: int, pollMs: nat, clock: nat -> int, ipAt: nat -> IpLookup,
                                      statusAt: nat -> StatusLookup, i: nat, ip: Option<string>, ok: bool)
    requires pollMs > 0 && Advances(clock, pollMs)
    ensures var r := Poll(deadline, pollMs, clock, ipAt, statusAt, i, ip, ok);
      && (forall j :: i <= j < r.rounds ==> clock(j) <= deadline)
      && (forall j :: i <= j < r.rounds - 1 ==> !Ready(PublicIpOf(ipAt(j)), StatusOkOf(statusAt(j))))
    decreases if clock(i) <= deadline then deadline - clock(i) + 1 else 0
  {
    if clock(i) <= deadline {
      var ip', ok' := PublicIpOf(ipAt(i)), StatusOkOf(statusAt(i));
      if !Ready(ip', ok') {
        PollRounds(deadline, pollMs, clock, ipAt, statusAt, i + 1, ip', ok');
      }
    }
  }

  /** The rounds after the first are at most the time left divided by the poll interval. */
  lemma {:induction false} PollBound(deadline: int, pollMs: nat, clock: nat -> int, ipAt: nat -> IpLookup,
                  statusAt: nat -> StatusLookup, i: nat, ip: Option<string>, ok: bool)
    requires pollMs > 0 && Advances(clock, pollMs)
    ensures var r := Poll(deadline, pollMs, clock, ipAt, statusAt, i, ip, ok);
      r.rounds > i ==> (r.rounds - 1 - i) * pollMs <= deadline - clock(i)
  {
    var rounds := Poll(deadline, pollMs, clock, ipAt, statusAt, i, ip, ok).rounds;
    if rounds > i {
      PollRounds(deadline, pollMs, clock, ipAt, statusAt, i, ip, ok);
      assert clock(rounds - 1) <= deadline;
      ClockAdvance(clock, pollMs, i, rounds - 1);
    }
  }

  // ---------------------------------------------------------------------------
  // The message

  const PendingHost := "(public IP pending)"

  /** `host:port`, with a placeholder host while no public IP is known. */
  function Endpoint(ip: Option<string>, port: string): (r: string)
    ensures |r| > |port| && r[|r| - |port| - 1..] == ":" + port
    ensures IsSet(ip) ==> |r| > |ip.value| && r[..|ip.value|] == ip.value
    ensures !IsSet(ip) ==> |r| > |PendingHost| && r[..|PendingHost|] == PendingHost
    ensures |r| == |(if IsSet(ip) then ip.value else PendingHost)| + 1 + |port|
  {
    (if IsSet(ip) then ip.value else PendingHost) + ":" + port
  }

  /** The green and yellow circle emoji that open the two messages. */
  const OkMarker: char := '\U{1F7E2}'
  const BootingMarker: char := '\U{1F7E1}'

  const OkPrefix := [OkMarker] + " EC2 status checks are **OK**. Hytale server is starting up \U{2014} connect at `"
  const OkSuffix := "` in a couple minutes."
  const BootingPrefix := [BootingMarker] + " Hytale EC2 is **booting** \U{2014} it should be ready soon. Connect at `"
  const BootingSuffix := "` in a few minutes."

  /** The message text: the "OK" message when the status checks passed, the "booting" one otherwise. */
  function Content(statusOk: bool, endpoint: string): (r: string)
    ensures |r| > 0 && r[0] == (if statusOk then OkMarker else BootingMarker)
  {
    var pre := if statusOk then OkPrefix else BootingPrefix;
    var r := pre + endpoint + (if statusOk then OkSuffix else BootingSuffix);
    assert r[0] == pre[0];
    r
  }

  /** The message tells which of the two cases holds, and the endpoint can be read back from it. */
  lemma ContentDetermines(ok1: bool, e1: string, ok2: bool, e2: string)
    requires Content(ok1, e1) == Content(ok2, e2)
    ensures ok1 == ok2 && e1 == e2
  {
    var c := Content(ok1, e1);
    assert ok1 == ok2 by { assert c[0] == Content(ok2, e2)[0]; }
    var pre := if ok1 then OkPrefix else BootingPrefix;
    var suf := if ok1 then OkSuffix else BootingSuffix;
    assert c == pre + e1 + suf && c == pre + e2 + suf;
    assert |e1| == |e2|;
    assert e1 == c[|pre|..|pre| + |e1|];
    assert e2 == c[|pre|..|pre| + |e2|];
  }

  // ---------------------------------------------------------------------------
  // The handler

  /** What the handler does: skip (with a reason for a misconfiguration), or post `content` to `webhook`. */
  datatype HandlerResult = Skipped(reason: Option<string>) | Posted(webhook: string, content: string)

  const MissingArnReason := "missing DISCORD_WEBHOOK_SECRET_ARN"
  const NotConfiguredReason := "discord webhook not configured"

  /**
   * The handler's decisions, given what its wait loop found: it posts exactly when the
   * event is about its own running instance and a webhook is configured.
   */
  function Respond(event: Event, env: Env, secret: SecretFetch, p: PollResult): (r: HandlerResult)
    ensures r.Posted? <==> IsOwnRunningEvent(event, env) && IsSet(env.secretArn) && GetWebhookUrl(secret).Some?
    ensures r.Skipped? ==> (r.reason.None? <==> !IsOwnRunningEvent(event, env))
  {
    if !IsOwnRunningEvent(event, env) then Skipped(None)
    else if !IsSet(env.secretArn) then Skipped(Some(MissingArnReason))
    else if GetWebhookUrl(secret).None? then Skipped(Some(NotConfiguredReason))
    else Posted(GetWebhookUrl(secret).value, Content(p.statusOk, Endpoint(p.publicIp, ServerPort(env))))
  }

  /**
   * An event about another instance, or about a state other than `running`, is skipped
   * without a reason; a missing secret ARN or an unconfigured webhook is skipped with
   * its reason; nothing is posted in any of these cases.
   */
  lemma RespondSkips(event: Event, env: Env, secret: SecretFetch, p: PollResult)
    ensures !IsOwnRunningEvent(event, env) ==> Respond(event, env, secret, p) == Skipped(None)
    ensures IsOwnRunningEvent(event, env) && !IsSet(env.secretArn) ==>
      Respond(event, env, secret, p) == Skipped(Some(MissingArnReason))
    ensures IsOwnRunningEvent(event, env) && IsSet(env.secretArn) && GetWebhookUrl(secret).None? ==>
      Respond(event, env, secret, p) == Skipped(Some(NotConfiguredReason))
    ensures Respond(event, env, secret, p).Posted? <==>
      IsOwnRunningEvent(event, env) && IsSet(env.secretArn) && GetWebhookUrl(secret).Some?
  {
  }

  /**
   * A posted message goes to the configured webhook; it is the "OK" message exactly when
   * the status checks passed, and it names the public IP when one was found and the
   * pending placeholder otherwise, with the server port.
   */
  lemma RespondMessage(event: Event, env: Env, secret: SecretFetch, p: PollResult)
    ensures var r := Respond(event, env, secret, p);
      r.Posted? ==>
      && Some(r.webhook) == GetWebhookUrl(secret)
      && r.content == Content(p.statusOk, Endpoint(p.publicIp, ServerPort(env)))
      && r.content[0] == (if p.statusOk then OkMarker else BootingMarker)
  {
  }

  /** The handler's wait: the loop from its first test, with the deadline `now` plus the clamped wait. */
  function Wait(env: Env, now: int, clock: nat -> int, ipAt: nat -> IpLookup, statusAt: nat -> StatusLookup): (r: PollResult)
    requires Advances(clock, PollSeconds(env) * 1000)
    ensures r.rounds == 0 <==> clock(0) > now + MaxWaitSeconds(env) * 1000
  {
    Poll(now + MaxWaitSeconds(env) * 1000, PollSeconds(env) * 1000, clock, ipAt, statusAt, 0, None, false)
  }

  /**
   * When the first loop test comes no earlier than the deadline was computed, the loop
   * runs at most one round more than the clamped wait holds poll intervals.
   */
  lemma WaitBound(env: Env, now: int, clock: nat -> int, ipAt: nat -> IpLookup, statusAt: nat -> StatusLookup)
    requires Advances(clock, PollSeconds(env) * 1000)
    requires clock(0) >= now
    ensures Wait(env, now, clock, ipAt, statusAt).rounds <= MaxWaitSeconds(env) / PollSeconds(env) + 1
  {
    var m, p := MaxWaitSeconds(env), PollSeconds(env);
    var deadline := now + m * 1000;
    var rounds := Wait(env, now, clock, ipAt, statusAt).rounds;
    SettingsInRange(env);
    PollBound(deadline, p * 1000, clock, ipAt, statusAt, 0, None, false);
    if rounds > 0 {
      MillisDivBound(rounds - 1, p, m);
    }
  }

  /** The same bound with the step and the bound both counted in milliseconds. */
  lemma MillisDivBound(k: nat, p: int, m: nat)
    requires p > 0 && k * (p * 1000) <= m * 1000
    ensures k <= m / p
  {
    assert (k * p) * 1000 == k * (p * 1000);
    DivBound(k, p, m);
  }

  /** A count whose multiple by a positive step fits in a bound is at most the bound divided by the step. */
  lemma DivBound(k: nat, p: int, m: nat)
    requires p > 0 && k * p <= m
    ensures k <= m / p
  {
    var q := m / p;
    assert m == q * p + m % p && 0 <= m % p < p;
    var d := q + 1 - k;
    assert d * p == q * p + p - k * p;
    PositiveFactor(d, p);
  }

  lemma PositiveFactor(d: int, p: int)
    requires p > 0 && d * p > 0
    ensures d > 0
  {
  }

  /**
   * `handler`. `secret` is what reading the secret named by DISCORD_WEBHOOK_SECRET_ARN
   * gives, `now` the clock when the deadline is computed; the wait loop runs only when
   * the handler is going to post.
   */
  method Handler(event: Event, env: Env, secret: SecretFetch, now: int,
                 clock: nat -> int, ipAt: nat -> IpLookup, statusAt: nat -> StatusLookup)
    returns (r: HandlerResult)
    requires Advances(clock, PollSeconds(env) * 1000)
    ensures r == Respond(event, env, secret, Wait(env, now, clock, ipAt, statusAt))
  {
    var deadline := now + MaxWaitSeconds(env) * 1000;
    var pollMs := PollSeconds(env) * 1000;
    ghost var p := Poll(deadline, pollMs, clock, ipAt, statusAt, 0, None, false);
    assert p == Wait(env, now, clock, ipAt, statusAt);
    RespondSkips(event, env, secret, p);
    if !IsOwnRunningEvent(event, env) {
      return Skipped(None);
    }
    if !IsSet(env.secretArn) {
      return Skipped(Some(MissingArnReason));
    }
    var webhook := GetWebhookUrl(secret);
    if webhook.None? {
      return Skipped(Some(NotConfiguredReason));
    }
    var port := ServerPort(env);
    var publicIp, statusOk, rounds := PollUntilReady(deadline, pollMs, clock, ipAt, statusAt);
    RespondMessage(event, env, secret, p);
    var endpoint := Endpoint(publicIp, port);
    r := Posted(webhook.value, Content(statusOk, endpoint));
  }
}
