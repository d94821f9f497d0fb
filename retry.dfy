/** The service-call layer of the translator: how a failed call is
    classified, how often and how long `with_retry` waits before calling
    again, the empty-input exit of `translate_text`, and the count of CJK
    ideographs it uses to decide whether text is already Chinese. */
module Retry {
  import opened Wrappers
  import opened Strings

  /** A failed call: a retryable one (a server error or a network fault)
      or one that is not worth repeating. */
  datatype ApiError = Retryable(msg: string) | NonRetryable(msg: string)

  /** The codes an HTTP status line can carry. */
  type StatusCode = s: int | 100 <= s <= 999 witness 200

  /** A server error is a status of class 5xx (section 15.6 of RFC 9110). */
  predicate IsServerError(status: StatusCode) {
    500 <= status <= 599
  }

  /** `classify_http_status`: only a 5xx answer is retried; both kinds of
      error carry the status line (`statusText`) and the response body. */
  function ClassifyHttpStatus(status: StatusCode, statusText: string, body: string): (r: ApiError)
    ensures r.Retryable? <==> IsServerError(status)
    ensures r.msg == "API 错误 " + statusText + ": " + body
  {
    var msg := "API 错误 " + statusText + ": " + body;
    if IsServerError(status) then Retryable(msg) else NonRetryable(msg)
  }

  /** `classify_reqwest_error`, over the two questions it asks of the
      transport error: a timeout or a failed connection is retried, any
      other transport failure is not; `text` is the error's own message. */
  function ClassifyTransportError(isTimeout: bool, isConnect: bool, text: string): (r: ApiError)
    ensures r.Retryable? <==> isTimeout || isConnect
    ensures r.Retryable? ==> r.msg == "网络错误: " + text
    ensures r.NonRetryable? ==> r.msg == "请求失败: " + text
  {
    if isTimeout || isConnect then Retryable("网络错误: " + text)
    else NonRetryable("请求失败: " + text)
  }

  // ---------------------------------------------------------------------
  // Back-off
  // ---------------------------------------------------------------------

  /** The base wait after failed attempt `attempt`: 1, 2, then 4 seconds,
      and 4 seconds for every later attempt. */
  function BaseDelay(attempt: nat): (r: nat)
    ensures 1000 <= r <= 4000
    ensures attempt >= 2 ==> r == 4000
  {
    if attempt < 3 then [1000, 2000, 4000][attempt] else 4000
  }

  /** The jitter half-width, a tenth of the base. The source computes it as
      the `f64` product `base * 0.1` cast back to an integer, which for the
      three bases in use is exactly `base / 10`. */
  function JitterRange(base: nat): nat {
    base / 10
  }

  /** The wait after failed attempt `attempt`, where `draw` is the random
      number taken from `0..=2 * JitterRange`: the base shifted by
      `draw - JitterRange`, and never less than 100 ms. */
  function Delay(attempt: nat, draw: nat): nat {
    var base := BaseDelay(attempt);
    AtLeast(base + draw - JitterRange(base), 100)
  }

  /** `max(d, floor)`. */
  function AtLeast(d: int, floor: nat): nat {
    if d < floor then floor else d
  }

  /** The draws the random generator can make after attempt `a`. */
  ghost predicate DrawsInRange(draw: nat -> nat) {
    forall a: nat :: draw(a) <= 2 * JitterRange(BaseDelay(a))
  }

  /** Every wait lies within ten per cent of its base, so the 100 ms floor
      never applies and no wait is shorter than 0.9 s or longer than 4.4 s. */
  lemma DelayBounds(attempt: nat, draw: nat)
    requires draw <= 2 * JitterRange(BaseDelay(attempt))
    ensures BaseDelay(attempt) - BaseDelay(attempt) / 10 <= Delay(attempt, draw)
    ensures Delay(attempt, draw) <= BaseDelay(attempt) + BaseDelay(attempt) / 10
    ensures Delay(attempt, draw) == BaseDelay(attempt) + draw - JitterRange(BaseDelay(attempt))
    ensures 900 <= Delay(attempt, draw) <= 4400
  {
  }

  // ---------------------------------------------------------------------
  // with_retry
  // ---------------------------------------------------------------------

  /** The error returned when the last allowed attempt fails retryably:
      the failure's message and the number of retries made. */
  function GaveUp(msg: string, maxRetries: nat): string {
    msg + " (已重试 " + Dec(maxRetries) + " 次)"
  }

  /** What `with_retry` promises: it made `calls` calls, all but the last
      of which failed retryably, each followed by the wait for its attempt
      number; the last call's outcome decides the result: a success is
      returned, a non-retryable error is returned as it is, and a retryable
      one ends the run only when it was the last allowed attempt. */
  ghost predicate RetryRan<T>(call: nat -> Result<T, ApiError>, draw: nat -> nat, maxRetries: nat,
                              r: Result<T, string>, calls: nat, delays: seq<nat>)
  {
    && 1 <= calls <= maxRetries + 1
    && (forall a :: 0 <= a < calls - 1 ==> call(a).Err? && call(a).error.Retryable?)
    && |delays| == calls - 1
    && (forall a :: 0 <= a < |delays| ==> delays[a] == Delay(a, draw(a)))
    && match call(calls - 1)
       case Ok(v) => r == Ok(v)
       case Err(NonRetryable(m)) => r == Err(m)
       case Err(Retryable(m)) => calls == maxRetries + 1 && r == Err(GaveUp(m, maxRetries))
  }

  /** `with_retry`: calls the operation up to `maxRetries + 1` times.
      `call(a)` is the outcome of the call made at attempt `a` and `draw(a)`
      the random draw for the wait after it; `delays` lists the waits
      slept, in order. */
  method WithRetry<T>(call: nat -> Result<T, ApiError>, draw: nat -> nat, maxRetries: nat)
    returns (r: Result<T, string>, calls: nat, delays: seq<nat>)
    ensures RetryRan(call, draw, maxRetries, r, calls, delays)
  {
    delays := [];
    for attempt := 0 to maxRetries + 1
      invariant attempt <= maxRetries
      invariant forall a :: 0 <= a < attempt ==> call(a).Err? && call(a).error.Retryable?
      invariant |delays| == attempt
      invariant forall a :: 0 <= a < attempt ==> delays[a] == Delay(a, draw(a))
    {
      calls := attempt + 1;
      match call(attempt) {
        case Ok(v) =>
          r := Ok(v);
          return;
        case Err(NonRetryable(m)) =>
          r := Err(m);
          return;
        case Err(Retryable(m)) =>
          if attempt == maxRetries {
            r := Err(GaveUp(m, maxRetries));
            return;
          }
          delays := delays + [Delay(attempt, draw(attempt))];
      }
    }
    assert false;
  }

  /** The run `with_retry` makes is determined by the call outcomes and the
      draws: two runs on the same inputs agree. */
  lemma RetryRanUnique<T>(call: nat -> Result<T, ApiError>, draw: nat -> nat, maxRetries: nat,
                          r1: Result<T, string>, calls1: nat, delays1: seq<nat>,
                          r2: Result<T, string>, calls2: nat, delays2: seq<nat>)
    requires RetryRan(call, draw, maxRetries, r1, calls1, delays1)
    requires RetryRan(call, draw, maxRetries, r2, calls2, delays2)
    ensures r1 == r2 && calls1 == calls2 && delays1 == delays2
  {
  }

  /** The run ends in success exactly when some allowed attempt succeeds
      and every attempt before it failed retryably; a retryable failure
      never stops the run while attempts remain. */
  lemma RetrySucceeds<T>(call: nat -> Result<T, ApiError>, draw: nat -> nat, maxRetries: nat,
                         r: Result<T, string>, calls: nat, delays: seq<nat>)
    requires RetryRan(call, draw, maxRetries, r, calls, delays)
    ensures r.Ok? <==> call(calls - 1).Ok?
    ensures r.Ok? ==> r.value == call(calls - 1).value
    ensures calls < maxRetries + 1 ==> !(call(calls - 1).Err? && call(calls - 1).error.Retryable?)
  {
  }

  /** Every wait `with_retry` sleeps lies within ten per cent of its base
      delay, so the whole run sleeps at most 4.4 s per retry. */
  lemma RetryWaits<T>(call: nat -> Result<T, ApiError>, draw: nat -> nat, maxRetries: nat,
                      r: Result<T, string>, calls: nat, delays: seq<nat>)
    requires DrawsInRange(draw)
    requires RetryRan(call, draw, maxRetries, r, calls, delays)
    ensures forall a :: 0 <= a < |delays| ==> 900 <= delays[a] <= 4400
    ensures forall a :: 0 <= a < |delays| ==>
      BaseDelay(a) - BaseDelay(a) / 10 <= delays[a] <= BaseDelay(a) + BaseDelay(a) / 10
  {
    forall a | 0 <= a < |delays|
      ensures 900 <= delays[a] <= 4400
      ensures BaseDelay(a) - BaseDelay(a) / 10 <= delays[a] <= BaseDelay(a) + BaseDelay(a) / 10
    {
      DelayBounds(a, draw(a));
    }
  }

  // ---------------------------------------------------------------------
  // translate_text
  // ---------------------------------------------------------------------

  /** The three ranges of CJK ideographs the translator recognises: the
      unified block, extension A and extension B. */
  predicate IsChinese(c: char) {
    || 0x4E00 <= c as int <= 0x9FFF
    || 0x3400 <= c as int <= 0x4DBF
    || 0x20000 <= c as int <= 0x2A6DF
  }

  /** `count_chinese_chars`: the number of characters of `s` in those
      ranges. */
  function CountChineseChars(s: string): (r: nat)
    ensures r <= |s|
    decreases |s|
  {
    if s == [] then 0
    else CountChineseChars(s[..|s| - 1]) + (if IsChinese(s[|s| - 1]) then 1 else 0)
  }

  /** The count of a concatenation is the sum of the counts. */
  lemma {:induction false} CountChineseAppend(a: string, b: string)
    ensures CountChineseChars(a + b) == CountChineseChars(a) + CountChineseChars(b)
    decreases |b|
  {
    if b == [] {
      assert a + b == a;
    } else {
      var init := b[..|b| - 1];
      assert (a + b)[..|a + b| - 1] == a + init;
      assert (a + b)[|a + b| - 1] == b[|b| - 1];
      CountChineseAppend(a, init);
    }
  }

  /** No character is counted exactly when none is in the ranges. */
  lemma {:induction false} CountChineseNone(s: string)
    ensures CountChineseChars(s) == 0 <==> forall i :: 0 <= i < |s| ==> !IsChinese(s[i])
    decreases |s|
  {
    if s != [] {
      var init := s[..|s| - 1];
      CountChineseNone(init);
      assert forall i :: 0 <= i < |init| ==> init[i] == s[i];
    }
  }

  /** Every character is counted exactly when all are in the ranges. */
  lemma {:induction false} CountChineseAll(s: string)
    ensures CountChineseChars(s) == |s| <==> forall i :: 0 <= i < |s| ==> IsChinese(s[i])
    decreases |s|
  {
    if s != [] {
      var init := s[..|s| - 1];
      CountChineseAll(init);
      assert forall i :: 0 <= i < |init| ==> init[i] == s[i];
    }
  }

  /** The retries `translate_text` allows the translation service. */
  const TranslateRetries: nat := 3

  /** `translate_text`. Whitespace-only input is answered with the empty
      string and text judged mostly Chinese (`mostlyChinese`, the ratio
      test) with the text itself, both without calling the service;
      otherwise the trimmed text is sent through `with_retry`.
      `service(t, a)` is the service's answer at attempt `a` to the request
      built from trimmed text `t`. */
  method TranslateText(text: string, mostlyChinese: bool,
                       service: (string, nat) -> Result<string, ApiError>, draw: nat -> nat)
    returns (r: Result<string, string>, calls: nat, delays: seq<nat>)
    ensures AllWhitespace(text) ==> r == Ok("") && calls == 0 && delays == []
    ensures !AllWhitespace(text) && mostlyChinese ==> r == Ok(text) && calls == 0 && delays == []
    ensures !AllWhitespace(text) && !mostlyChinese ==>
      RetryRan(a => service(Trim(text), a), draw, TranslateRetries, r, calls, delays)
  {
    var trimmed := Trim(text);
    if trimmed == [] {
      return Ok(""), 0, [];
    }
    if mostlyChinese {
      return Ok(text), 0, [];
    }
    r, calls, delays := WithRetry(a => service(trimmed, a), draw, TranslateRetries);
  }
}
