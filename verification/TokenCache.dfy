// The per-VU access token cache of the generated script. Times are milliseconds.
module TokenCache {
  import opened Instants

  /** A JavaScript number, or a moment or duration computed from one. */
  datatype Number = Finite(ms: real) | Infinite | NotANumber

  /** The body of a token response. `Null` is the JSON text `null`, on which reading a property throws. */
  datatype Body = BadJson | Null | Grant(accessToken: string, tokenType: Option<string>, expiresInMs: Number)

  /** A reply and the time it is handled. `Lost` is a missing response or a transport error, which may name a
      timeout; `Thrown` is a post that throws. */
  datatype Reply = Lost(timedOut: bool) | Thrown | Http(status: int, at: real, body: Body)

  datatype Result = Header(text: string) | Aborted | Crashed

  datatype Cause = ConfigError | InvalidResponse | HttpStatus | Timeout | NetworkError

  /** Why the run was aborted. */
  datatype Abort = Abort(cause: Cause, status: int, retryable: bool)

  datatype Config = Config(secret: string, url: string, retryLimit: nat, skewMs: real, maxJitterMs: nat,
                           retryable: set<int>)

  function Min(a: real, b: real): real { if a <= b then a else b }

  function Max(a: real, b: real): real { if a >= b then a else b }

  /** The deterministic share of the jitter a VU gets. */
  function Jitter(vu: nat, maxJitterMs: nat): (j: int)
    ensures 0 <= j <= maxJitterMs
  {
    var share := vu % (maxJitterMs / 1000 + 1) * 1000;
    if share <= maxJitterMs then share else maxJitterMs
  }

  function EffectiveSkewMs(skewMs: real, lifeMs: real): real {
    Min(Max(0.0, skewMs), Max(5000.0, (lifeMs * 0.2).Floor as real))
  }

  /** How long before its expiry a token is renewed. */
  function LeadMs(skewMs: real, lifeMs: real, jitterMs: int): real {
    Min(EffectiveSkewMs(skewMs, lifeMs) + jitterMs as real, Max(0.0, lifeMs - 1000.0))
  }

  function ExpiresAt(at: real, life: Number): Number {
    if life.Finite? then Finite(at + life.ms) else life
  }

  function RefreshAt(at: real, life: Number, skewMs: real, jitterMs: int): Number {
    if life.Finite? then Finite(at + life.ms - LeadMs(skewMs, life.ms, jitterMs)) else life
  }

  /** `now < t` as JavaScript compares. */
  predicate Before(now: real, t: Number) {
    match t
    case Finite(ms) => now < ms
    case Infinite => true
    case NotANumber => false
  }

  /** A token is renewed no earlier than a second after it was issued (or at its expiry, if it lives shorter), and no
      later than its expiry, whatever the skew, the jitter and the lifetime. */
  lemma RefreshWindow(at: real, lifeMs: real, skewMs: real, jitterMs: int)
    requires lifeMs > 0.0 && jitterMs >= 0
    ensures at + Min(1000.0, lifeMs) <= RefreshAt(at, Finite(lifeMs), skewMs, jitterMs).ms
                                     <= ExpiresAt(at, Finite(lifeMs)).ms
  {
    assert EffectiveSkewMs(skewMs, lifeMs) >= 0.0;
  }

  /** It is renewed at its very expiry exactly when it lives at most a second, or neither skew nor jitter ask for
      a lead. */
  lemma NoLeadIff(lifeMs: real, skewMs: real, jitterMs: int)
    requires lifeMs > 0.0 && jitterMs >= 0
    ensures LeadMs(skewMs, lifeMs, jitterMs) == 0.0 <==> lifeMs <= 1000.0 || (skewMs <= 0.0 && jitterMs == 0)
  {
    assert Max(5000.0, (lifeMs * 0.2).Floor as real) >= 5000.0;
  }

  // ------------------------------------------------ one round of requests

  predicate Succeeded(r: Reply) {
    r.Http? && 200 <= r.status < 300
  }

  predicate Retried(cfg: Config, r: Reply) {
    !Succeeded(r) && (r.Lost? || (r.Http? && 100 <= r.status <= 599 && r.status in cfg.retryable))
  }

  /** The reply whose body the script would have to read, if it could. */
  predicate Unreadable(r: Reply) {
    r.Thrown? || (Succeeded(r) && r.body.Null?)
  }

  /** tokenFailureDetails, and the two ways a 2xx reply can be unusable. */
  function AbortOf(cfg: Config, r: Reply): Abort
    requires !r.Thrown?
  {
    match r
    case Lost(timedOut) => Abort(if timedOut then Timeout else NetworkError, 0, true)
    case Http(status, _, _) =>
      if Succeeded(r) then Abort(InvalidResponse, status, false)
      else Abort(HttpStatus, status, 100 <= status <= 599 && status in cfg.retryable)
  }

  function Counted(counts: map<int, nat>, code: int): nat {
    if code in counts then counts[code] else 0
  }

  function Recorded(counts: map<int, nat>, r: Reply): map<int, nat> {
    if r.Http? && 100 <= r.status <= 599 then counts[r.status := Counted(counts, r.status) + 1] else counts
  }

  /** How many of the replies carry the status. */
  function Seen(replies: seq<Reply>, code: int): nat {
    if replies == [] then 0
    else
      var last := replies[|replies| - 1];
      Seen(replies[..|replies| - 1], code) + (if last.Http? && last.status == code && 100 <= code <= 599 then 1 else 0)
  }

  ghost predicate CountsGrow(before: map<int, nat>, after: map<int, nat>, replies: seq<Reply>) {
    forall code :: Counted(after, code) == Counted(before, code) + Seen(replies, code)
  }

  lemma RecordedGrows(before: map<int, nat>, counts: map<int, nat>, replies: seq<Reply>, k: nat)
    requires k < |replies| && CountsGrow(before, counts, replies[..k])
    ensures CountsGrow(before, Recorded(counts, replies[k]), replies[..k + 1])
  {
    assert replies[..k + 1][..k] == replies[..k];
  }

  /** A response counts for its own status only, from the first one on; others than 100 to 599 are not counted. */
  lemma RecordedExact(counts: map<int, nat>, r: Reply)
    ensures !r.Http? || r.status < 100 || r.status > 599 ==> Recorded(counts, r) == counts
    ensures r.Http? && 100 <= r.status <= 599 ==>
              && Recorded(counts, r).Keys == counts.Keys + {r.status}
              && Recorded(counts, r)[r.status] == (if r.status in counts then counts[r.status] + 1 else 1)
              && forall code :: code in counts && code != r.status ==> Recorded(counts, r)[code] == counts[code]
  {
  }

  /** The reply the round ends with: the first that is not retried, or the last the retry limit allows. */
  predicate EndsWith(cfg: Config, replies: seq<Reply>, k: nat) {
    && k <= cfg.retryLimit && k < |replies|
    && (forall i :: 0 <= i < k ==> Retried(cfg, replies[i]))
    && (k < cfg.retryLimit ==> !Retried(cfg, replies[k]))
  }

  /** Every round ends, with one reply: the first that is not retried, if it comes within the limit's retries, and
      otherwise the last of them. */
  lemma {:induction false} EndsExact(cfg: Config, replies: seq<Reply>, k: nat)
    requires |replies| > cfg.retryLimit
    ensures EndsWith(cfg, replies, k)
       <==> if exists i :: 0 <= i < cfg.retryLimit && !Retried(cfg, replies[i])
            then && k < cfg.retryLimit && !Retried(cfg, replies[k])
                 && forall i :: 0 <= i < k ==> Retried(cfg, replies[i])
            else k == cfg.retryLimit
  {
  }

  /** A lifetime the script accepts: `expiresIn <= 0` is false for what is not a number. */
  predicate Usable(b: Body) {
    b.Grant? && b.accessToken != "" && (b.expiresInMs.Finite? ==> b.expiresInMs.ms > 0.0)
  }

  function TypeOf(b: Body): string
    requires b.Grant?
  {
    match b.tokenType
    case Some(t) => t
    case None => "Bearer"
  }

  /** The most requests that so many rounds may send. */
  function Budget(rounds: nat, limit: nat): nat {
    rounds * (limit + 1)
  }

  lemma BudgetGrows(rounds: nat, limit: nat)
    ensures Budget(rounds + 1, limit) == Budget(rounds, limit) + limit + 1
  {
  }

  class AuthState {
    const cfg: Config
    const jitterMs: int
    var accessToken: string
    var tokenType: string
    var expiresAt: Number
    var refreshAt: Number
    var requests: nat
    var successes: nat
    var failures: nat
    var refreshes: nat
    var reuseHits: nat
    var statusCounts: map<int, nat>
    var abort: Option<Abort>
    ghost var issuedAt: real
    ghost var life: Number
    ghost var calls: nat
    ghost var rounds: nat
    ghost var crashes: nat

    /** The token the VU holds is what reply `r` granted. */
    ghost predicate Holds(r: Reply, result: Result)
      reads this
    {
      && Succeeded(r) && Usable(r.body)
      && accessToken == r.body.accessToken && result == Header(TypeOf(r.body) + " " + accessToken)
      && tokenType == TypeOf(r.body) && issuedAt == r.at && life == r.body.expiresInMs
      && expiresAt == ExpiresAt(issuedAt, life) && refreshAt == RefreshAt(issuedAt, life, cfg.skewMs, jitterMs)
    }

    /** What holds between any two calls of every run. */
    ghost predicate Valid()
      reads this
    {
      && 0 <= jitterMs <= cfg.maxJitterMs
      && (accessToken != "" <==> successes > 0)
      && (accessToken != "" ==>
            && (life.Finite? ==> life.ms > 0.0)
            && expiresAt == ExpiresAt(issuedAt, life)
            && refreshAt == RefreshAt(issuedAt, life, cfg.skewMs, jitterMs))
      && refreshes == (if successes == 0 then 0 else successes - 1)
      && rounds == successes + failures + crashes
      && (abort.Some? <==> failures > 0)
      && calls == rounds + reuseHits
      && successes <= requests <= Budget(rounds, cfg.retryLimit)
    }

    constructor (cfg: Config, vu: nat)
      ensures Valid() && this.cfg == cfg && calls == 0
    {
      this.cfg := cfg;
      jitterMs := Jitter(vu, cfg.maxJitterMs);
      accessToken, tokenType, expiresAt, refreshAt := "", "Bearer", Finite(0.0), Finite(0.0);
      requests, successes, failures, refreshes, reuseHits := 0, 0, 0, 0, 0;
      statusCounts, abort := map[], None;
      issuedAt, life, calls, rounds, crashes := 0.0, Finite(0.0), 0, 0, 0;
    }

    /** Send requests until one is not retried, at most one more than the retry limit, and count the statuses. */
    method SendRequests(replies: seq<Reply>) returns (k: nat)
      requires |replies| > cfg.retryLimit
      modifies this`requests, this`statusCounts
      ensures EndsWith(cfg, replies, k) && requests == old(requests) + k + 1
      ensures CountsGrow(old(statusCounts), statusCounts, replies[..k + 1])
    {
      k := 0;
      requests := requests + 1;
      RecordedGrows(statusCounts, statusCounts, replies, 0);
      statusCounts := Recorded(statusCounts, replies[0]);
      while k < cfg.retryLimit && Retried(cfg, replies[k])
        invariant k <= cfg.retryLimit && requests == old(requests) + k + 1
        invariant forall i :: 0 <= i < k ==> Retried(cfg, replies[i])
        invariant CountsGrow(old(statusCounts), statusCounts, replies[..k + 1])
      {
        k := k + 1;
        requests := requests + 1;
        RecordedGrows(old(statusCounts), statusCounts, replies, k);
        statusCounts := Recorded(statusCounts, replies[k]);
      }
    }

    /** What the reply a round ends with does to the state. */
    method Conclude(res: Reply, isRefresh: bool) returns (result: Result)
      modifies this`accessToken, this`tokenType, this`expiresAt, this`refreshAt, this`issuedAt, this`life,
               this`successes, this`failures, this`refreshes, this`crashes, this`abort
      ensures result.Header? <==> Succeeded(res) && Usable(res.body)
      ensures result.Crashed? <==> Unreadable(res)
      ensures abort == if result.Aborted? then Some(AbortOf(cfg, res)) else old(abort)
      ensures failures == old(failures) + (if result.Aborted? then 1 else 0)
      ensures crashes == old(crashes) + (if result.Crashed? then 1 else 0)
      ensures successes == old(successes) + (if result.Header? then 1 else 0)
      ensures refreshes == old(refreshes) + (if result.Header? && isRefresh then 1 else 0)
      ensures result.Header? ==> Holds(res, result)
      ensures !result.Header? ==>
                && accessToken == old(accessToken) && tokenType == old(tokenType)
                && issuedAt == old(issuedAt) && life == old(life)
                && expiresAt == old(expiresAt) && refreshAt == old(refreshAt)
    {
      if res.Thrown? || (Succeeded(res) && res.body.Null?) {
        crashes := crashes + 1;
        return Crashed;
      }
      if !Succeeded(res) || !Usable(res.body) {
        failures := failures + 1;
        abort := Some(AbortOf(cfg, res));
        return Aborted;
      }
      accessToken := res.body.accessToken;
      tokenType := TypeOf(res.body);
      expiresAt := ExpiresAt(res.at, res.body.expiresInMs);
      refreshAt := RefreshAt(res.at, res.body.expiresInMs, cfg.skewMs, jitterMs);
      issuedAt, life := res.at, res.body.expiresInMs;
      successes := successes + 1;
      if isRefresh {
        refreshes := refreshes + 1;
      }
      return Header(tokenType + " " + accessToken);
    }

    /** The requests of one round and what its last reply does to the state. */
    method AskEndpoint(isRefresh: bool, replies: seq<Reply>) returns (result: Result, k: nat)
      requires Valid() && |replies| > cfg.retryLimit
      modifies this
      ensures EndsWith(cfg, replies, k) && requests == old(requests) + k + 1
      ensures CountsGrow(old(statusCounts), statusCounts, replies[..k + 1])
      ensures result.Header? <==> Succeeded(replies[k]) && Usable(replies[k].body)
      ensures result.Crashed? <==> Unreadable(replies[k])
      ensures abort == if result.Aborted? then Some(AbortOf(cfg, replies[k])) else old(abort)
      ensures result.Header? ==> Holds(replies[k], result)
      ensures !result.Header? ==>
                && accessToken == old(accessToken) && tokenType == old(tokenType)
                && issuedAt == old(issuedAt) && life == old(life)
                && expiresAt == old(expiresAt) && refreshAt == old(refreshAt)
      ensures failures == old(failures) + (if result.Aborted? then 1 else 0)
      ensures crashes == old(crashes) + (if result.Crashed? then 1 else 0)
      ensures successes == old(successes) + (if result.Header? then 1 else 0)
      ensures refreshes == old(refreshes) + (if result.Header? && isRefresh then 1 else 0)
      ensures calls == old(calls) && rounds == old(rounds) && reuseHits == old(reuseHits)
    {
      k := SendRequests(replies);
      result := Conclude(replies[k], isRefresh);
    }

    /** requestAccessToken; `replies` is what the token endpoint would answer, as often as it may be asked. */
    method RequestAccessToken(isRefresh: bool, replies: seq<Reply>) returns (result: Result)
      requires Valid() && |replies| > cfg.retryLimit && isRefresh == (accessToken != "")
      modifies this
      ensures Valid() && calls == old(calls) + 1 && reuseHits == old(reuseHits)
      ensures requests <= old(requests) + cfg.retryLimit + 1
      ensures cfg.secret == "" || cfg.url == "" ==>
                && result == Aborted && requests == old(requests) && statusCounts == old(statusCounts)
                && abort == Some(Abort(ConfigError, 0, false))
      ensures !result.Aborted? ==> abort == old(abort)
      ensures result.Aborted? ==>
                abort.Some? && (abort.value.retryable ==> requests == old(requests) + cfg.retryLimit + 1)
      ensures result.Header? <==> successes == old(successes) + 1
      ensures result.Aborted? <==> failures == old(failures) + 1
      ensures !result.Header? ==> accessToken == old(accessToken) && refreshAt == old(refreshAt)
                                  && successes == old(successes)
      ensures !result.Aborted? ==> failures == old(failures)
      ensures result.Header? ==> result.text == tokenType + " " + accessToken
      ensures cfg.secret != "" && cfg.url != "" ==>
                exists k: nat :: EndsWith(cfg, replies, k) && requests == old(requests) + k + 1
                  && (result.Header? <==> Succeeded(replies[k]) && Usable(replies[k].body))
                  && (result.Crashed? <==> Unreadable(replies[k]))
                  && (result.Aborted? ==> abort == Some(AbortOf(cfg, replies[k])))
                  && CountsGrow(old(statusCounts), statusCounts, replies[..k + 1])
                  && (result.Header? ==> Holds(replies[k], result))
    {
      BudgetGrows(rounds, cfg.retryLimit);
      if cfg.secret == "" || cfg.url == "" {
        failures := failures + 1;
        abort := Some(Abort(ConfigError, 0, false));
        calls, rounds := calls + 1, rounds + 1;
        return Aborted;
      }
      var k: nat;
      result, k := AskEndpoint(isRefresh, replies);
      calls, rounds := calls + 1, rounds + 1;
    }

    /** ensureAuthorizationHeader, with authentication enabled: the header carries a token that has not expired at the
        moment it was looked at (for one that never had a comparable lifetime: that was issued just now). */
    method EnsureAuthorizationHeader(now: real, replies: seq<Reply>) returns (result: Result)
      requires Valid() && |replies| > cfg.retryLimit
      modifies this
      ensures Valid() && calls == old(calls) + 1
      ensures requests <= old(requests) + cfg.retryLimit + 1
      ensures result.Header? && reuseHits == old(reuseHits) + 1 ==>
                Before(now, expiresAt) && accessToken == old(accessToken) && requests == old(requests)
      ensures result.Header? && reuseHits == old(reuseHits) ==>
                successes == old(successes) + 1 && (Before(issuedAt, expiresAt) || life == NotANumber)
      ensures result.Header? ==> result.text == tokenType + " " + accessToken
      ensures reuseHits != old(reuseHits) <==> old(accessToken) != "" && Before(now, old(refreshAt))
      ensures old(accessToken) != "" ==>
                && (old(life) == Infinite ==> reuseHits > old(reuseHits))
                && (old(life) == NotANumber ==> reuseHits == old(reuseHits))
                && (old(life).Finite? && old(issuedAt) + old(life).ms <= now ==> reuseHits == old(reuseHits))
      ensures reuseHits <= old(reuseHits) + 1
    {
      if accessToken != "" && Before(now, refreshAt) {
        if life.Finite? {
          RefreshWindow(issuedAt, life.ms, cfg.skewMs, jitterMs);
        }
        reuseHits := reuseHits + 1;
        calls := calls + 1;
        return Header(tokenType + " " + accessToken);
      }
      result := RequestAccessToken(accessToken != "", replies);
    }
  }

  /** The token endpoint answers `200` with the JSON text `null`: reading the token throws, and the round leaves no
      trace in the counters of successes and failures. */
  method NullBodyThrows(cfg: Config, vu: nat) returns (result: Result, requests: nat, successes: nat, failures: nat)
    requires cfg.secret != "" && cfg.url != ""
    ensures result == Crashed && requests == 1 && successes == 0 && failures == 0
  {
    var state := new AuthState(cfg, vu);
    assert state.accessToken == "";
    var replies := seq(cfg.retryLimit + 1, i => Http(200, 0.0, Null));
    assert !Retried(cfg, replies[0]);
    result := state.RequestAccessToken(false, replies);
    requests, successes, failures := state.requests, state.successes, state.failures;
  }

  // ------------------------------------------------ the pieces of the timing

  /** The lead is the largest one that asks for no more than skew and jitter together, takes no more than a fifth of the
      life (or five seconds) before the jitter, and leaves the token a second. */
  lemma LeadExact(skewMs: real, lifeMs: real, jitterMs: int, lead: real)
    requires lifeMs > 0.0 && jitterMs >= 0
    ensures lead <= LeadMs(skewMs, lifeMs, jitterMs) <==>
            && (lead <= jitterMs as real || lead <= skewMs + jitterMs as real)
            && (lead <= 5000.0 + jitterMs as real || lead <= (lifeMs / 5.0).Floor as real + jitterMs as real)
            && (lead <= 0.0 || lead <= lifeMs - 1000.0)
  {
    assert lifeMs * 0.2 == lifeMs / 5.0;
  }

  /** VUs are spread over whole seconds up to the maximum, one after the other, and then from the start again. */
  lemma JitterSpread(vu: nat, maxJitterMs: nat)
    ensures vu <= maxJitterMs / 1000 ==> Jitter(vu, maxJitterMs) == vu * 1000
    ensures Jitter(vu + maxJitterMs / 1000 + 1, maxJitterMs) == Jitter(vu, maxJitterMs)
  {
    var buckets := maxJitterMs / 1000 + 1;
    ModShift(vu, buckets);
    if vu < buckets {
      ModSmall(vu, buckets);
    }
  }

  lemma ModSmall(x: nat, n: nat)
    requires x < n
    ensures x % n == x
  {
  }

  lemma ModShift(x: nat, n: nat)
    requires n > 0
    ensures (x + n) % n == x % n
  {
    var q, r := x / n, x % n;
    assert x + n == n * (q + 1) + r by { assert n * (q + 1) == n * q + n; }
    ModOf(q + 1, r, n);
  }

  lemma ModOf(q: nat, r: nat, n: nat)
    requires r < n
    ensures (n * q + r) % n == r
  {
    var x := n * q + r;
    assert x == n * (x / n) + x % n;
    assert n * (q - 1) == n * q - n && n * (q + 1) == n * q + n;
    if x / n < q {
      Scaled(n, x / n, q - 1);
    } else if q < x / n {
      Scaled(n, q + 1, x / n);
    }
  }

  lemma Scaled(n: nat, a: int, b: int)
    requires a <= b
    ensures n * a <= n * b
  {
  }

  /** What is tried again: a lost response, and a retryable status that is no success. */
  lemma RetriedIff(cfg: Config, r: Reply)
    ensures Retried(cfg, r) <==>
            match r
            case Lost(_) => true
            case Thrown => false
            case Http(status, _, _) =>
              (100 <= status < 200 || 300 <= status < 600) && status in cfg.retryable
  {
  }

  /** When a round gives a token, and what the abort says otherwise. */
  lemma OutcomeMeaning(cfg: Config, r: Reply)
    ensures Succeeded(r) && Usable(r.body) <==>
            && r.Http? && r.status / 100 == 2 && r.body.Grant? && |r.body.accessToken| > 0
            && (r.body.expiresInMs.Finite? ==> r.body.expiresInMs.ms > 0.0)
    ensures !r.Thrown? ==>
              var a := AbortOf(cfg, r);
              && (a.cause == Timeout <==> r == Lost(true)) && (a.cause == NetworkError <==> r == Lost(false))
              && (a.cause == InvalidResponse <==> r.Http? && r.status / 100 == 2)
              && (a.cause == HttpStatus <==> r.Http? && r.status / 100 != 2)
              && a.cause != ConfigError
              && a.status == (if r.Http? then r.status else 0) && a.retryable == Retried(cfg, r)
  {
  }
}
