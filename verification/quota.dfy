/**
 * Quota refresh for one Codex account: the usage payload is mapped to a
 * quota record, a failed request becomes an error message that may carry an
 * `[error_code:…]` marker, and the account record is updated with either the
 * new quota or the error. HTTP, OAuth and JSON parsing are left out: their
 * outcomes are parameters.
 */
module CodexQuota {
  import opened Base
  import opened Text

  // ---------------------------------------------------------------------
  // Abstract JSON and the detail code of an error body
  // ---------------------------------------------------------------------

  /** A parsed JSON value; an object is a map because a repeated key keeps only its last value. */
  datatype Json =
    | JNull
    | JBool(b: bool)
    | JNumber(n: int)
    | JString(s: string)
    | JArray(items: seq<Json>)
    | JObject(fields: map<string, Json>)

  /** `Value::get` with a string key: only objects have members. */
  function Get(v: Json, key: string): Option<Json> {
    if v.JObject? && key in v.fields then Some(v.fields[key]) else None
  }

  /** `Value::as_str`. */
  function AsStr(v: Option<Json>): Option<string> {
    if v.Some? && v.value.JString? then Some(v.value.s) else None
  }

  /** The string found by following a path of object keys, if there is one. */
  function StringAt(v: Json, path: seq<string>): Option<string>
    decreases |path|
  {
    if |path| == 0 then (if v.JString? then Some(v.s) else None)
    else
      match Get(v, path[0])
      case None => None
      case Some(child) => StringAt(child, path[1..])
  }

  /**
   * `extract_detail_code_from_body`, given the outcome of parsing the body
   * (`None` when it is not JSON): the string at `detail.code` wins over a
   * top-level `code` string; otherwise there is no code.
   */
  function DetailCode(parsed: Option<Json>): (r: Option<string>)
    ensures parsed.None? ==> r.None?
    ensures parsed.Some? && StringAt(parsed.value, ["detail", "code"]).Some? ==>
              r == StringAt(parsed.value, ["detail", "code"])
    ensures parsed.Some? && StringAt(parsed.value, ["detail", "code"]).None? ==>
              r == StringAt(parsed.value, ["code"])
  {
    match parsed
    case None => None
    case Some(value) =>
      var detail := Get(value, "detail");
      var nested := if detail.Some? then AsStr(Get(detail.value, "code")) else None;
      if nested.Some? then nested else AsStr(Get(value, "code"))
  }

  // ---------------------------------------------------------------------
  // The error message of a non-success response and its error-code marker
  // ---------------------------------------------------------------------

  const ErrorCodeMarker: string := "[error_code:"

  /** Start of the message for a non-success status; the status rendering follows it. */
  const StatusPrefix: string := "API 返回错误 "

  /** The body preview is cut at this many UTF-8 bytes. */
  const PreviewBytes: nat := 200

  /** Bytes `c` takes in UTF-8. */
  function Utf8Width(c: char): nat {
    if c as int < 0x80 then 1
    else if c as int < 0x800 then 2
    else if c as int < 0x1_0000 then 3
    else 4
  }

  /** `str::len`: the UTF-8 length of `s` in bytes. */
  function ByteLen(s: string): nat {
    if |s| == 0 then 0 else Utf8Width(s[0]) + ByteLen(s[1..])
  }

  lemma ByteLenOfPrefix(s: string, k: nat)
    requires 1 <= k <= |s|
    ensures ByteLen(s[..k]) == Utf8Width(s[0]) + ByteLen(s[1..][..k - 1])
  {
    assert s[..k][1..] == s[1..][..k - 1];
  }

  /**
   * The prefix of `s` that is exactly `n` bytes long, or `None` when byte
   * `n` falls inside a character, where slicing a Rust string panics.
   */
  function TakeBytes(s: string, n: nat): (r: Option<string>)
    ensures r.Some? ==> |r.value| <= |s| && r.value == s[..|r.value|] && ByteLen(r.value) == n
    ensures r.None? ==> forall k :: 0 <= k <= |s| ==> ByteLen(s[..k]) != n
  {
    if n == 0 then Some([])
    else if |s| == 0 then None
    else if Utf8Width(s[0]) > n then
      assert forall k :: 1 <= k <= |s| ==> ByteLen(s[..k]) != n by {
        forall k | 1 <= k <= |s| ensures ByteLen(s[..k]) != n {
          ByteLenOfPrefix(s, k);
        }
      }
      None
    else
      match TakeBytes(s[1..], n - Utf8Width(s[0]))
      case None =>
        assert forall k :: 1 <= k <= |s| ==> ByteLen(s[..k]) != n by {
          forall k | 1 <= k <= |s| ensures ByteLen(s[..k]) != n {
            ByteLenOfPrefix(s, k);
          }
        }
        None
      case Some(rest) =>
        assert ([s[0]] + rest)[1..] == rest;
        assert [s[0]] + rest == s[..|rest| + 1];
        Some([s[0]] + rest)
  }

  /**
   * The body preview as `fetch_quota` computes it: the whole body when it is
   * at most 200 bytes, otherwise the slice `&body[..200]`. `None` stands for
   * the panic that slice raises when byte 200 falls inside a character.
   */
  function BodyPreviewAsWritten(body: string): (r: Option<string>)
    ensures ByteLen(body) <= PreviewBytes ==> r == Some(body)
    ensures ByteLen(body) > PreviewBytes && r.Some? ==>
              ByteLen(r.value) == PreviewBytes && StartsWith(body, r.value)
    ensures r.None? ==> ByteLen(body) > PreviewBytes
    ensures r.None? ==> forall k :: 0 <= k <= |body| ==> ByteLen(body[..k]) != PreviewBytes
  {
    if ByteLen(body) > PreviewBytes then TakeBytes(body, PreviewBytes) else Some(body)
  }

  lemma {:induction false} AsciiByteLen(s: string)
    requires forall i :: 0 <= i < |s| ==> s[i] as int < 0x80
    ensures ByteLen(s) == |s|
  {
    if |s| > 0 {
      AsciiByteLen(s[1..]);
    }
  }

  /**
   * A body of 199 ASCII characters followed by `é` (two bytes) is 201
   * bytes long and has no character boundary at byte 200, so the Rust
   * slice panics.
   */
  lemma PreviewPanicsInsideCharacter()
    ensures var body := seq(199, _ => 'a') + ['é'];
            ByteLen(body) == 201 && BodyPreviewAsWritten(body).None?
  {
    var ascii := seq(199, _ => 'a');
    var body := ascii + ['é'];
    assert body[..199] == ascii;
    AsciiByteLen(ascii);
    forall k | 0 <= k <= |body|
      ensures ByteLen(body[..k]) != PreviewBytes
    {
      if k <= 199 {
        assert body[..k] == ascii[..k];
        AsciiByteLen(ascii[..k]);
      } else {
        assert body[..k] == body;
        ByteLenAppend(ascii, ['é']);
      }
    }
    ByteLenAppend(ascii, ['é']);
  }

  lemma {:induction false} ByteLenAppend(a: string, b: string)
    ensures ByteLen(a + b) == ByteLen(a) + ByteLen(b)
  {
    if |a| > 0 {
      assert (a + b)[1..] == a[1..] + b;
      ByteLenAppend(a[1..], b);
    } else {
      assert a + b == b;
    }
  }

  /**
   * The longest prefix of `s` that fits in `n` bytes without splitting a
   * character.
   */
  function TakeAtMostBytes(s: string, n: nat): (r: string)
    ensures |r| <= |s| && r == s[..|r|]
    ensures ByteLen(r) <= n
    ensures |r| < |s| ==> ByteLen(r) + Utf8Width(s[|r|]) > n
  {
    if |s| == 0 || Utf8Width(s[0]) > n then []
    else
      var rest := TakeAtMostBytes(s[1..], n - Utf8Width(s[0]));
      assert ([s[0]] + rest)[1..] == rest;
      [s[0]] + rest
  }

  /** Where the exact cut exists, the boundary-respecting cut finds it. */
  lemma {:induction false} TakeAtMostAgrees(s: string, n: nat)
    requires TakeBytes(s, n).Some?
    ensures TakeAtMostBytes(s, n) == TakeBytes(s, n).value
  {
    if n > 0 && |s| > 0 && Utf8Width(s[0]) <= n {
      TakeAtMostAgrees(s[1..], n - Utf8Width(s[0]));
    }
  }

  /**
   * The body preview cut at the last whole character within 200 bytes:
   * the whole body when it is at most 200 bytes, otherwise the longest
   * prefix of at most 200 bytes that ends on a character boundary. It
   * never fails.
   */
  function BodyPreview(body: string): (r: string)
    ensures StartsWith(body, r) && ByteLen(r) <= PreviewBytes
    ensures ByteLen(body) <= PreviewBytes ==> r == body
    ensures |r| < |body| ==> ByteLen(r) + Utf8Width(body[|r|]) > PreviewBytes
  {
    if ByteLen(body) > PreviewBytes then TakeAtMostBytes(body, PreviewBytes) else body
  }

  /** Wherever the preview of `fetch_quota` does not panic, the corrected preview is the same text. */
  lemma BodyPreviewAgreesAsWritten(body: string)
    requires BodyPreviewAsWritten(body).Some?
    ensures BodyPreview(body) == BodyPreviewAsWritten(body).value
  {
    if ByteLen(body) > PreviewBytes {
      TakeAtMostAgrees(body, PreviewBytes);
    }
  }

  /**
   * The error `fetch_quota` returns for a non-success status: the status
   * line, the marker with the detail code when there is one, then ` - ` and
   * the body preview.
   */
  function StatusErrorMessage(status: string, detailCode: Option<string>, body: string): (r: string)
    ensures StartsWith(r, StatusPrefix + status)
    ensures EndsWith(r, " - " + BodyPreview(body))
    ensures detailCode.None? ==> r == StatusPrefix + status + " - " + BodyPreview(body)
  {
    var head := StatusPrefix + status;
    var withCode := WithCodeMarker(head, detailCode);
    var r := withCode + " - " + BodyPreview(body);
    assert r == withCode + (" - " + BodyPreview(body));
    StartsWithConcat(withCode, " - " + BodyPreview(body));
    EndsWithConcat(withCode, " - " + BodyPreview(body));
    r
  }

  /** The status line followed, when there is a detail code, by ` [error_code:<code>]`. */
  function WithCodeMarker(head: string, detailCode: Option<string>): (r: string)
    ensures StartsWith(r, head)
    ensures detailCode.None? ==> r == head
    ensures detailCode.Some? ==> r == head + (" " + ErrorCodeMarker + detailCode.value + "]")
  {
    match detailCode
    case None => head
    case Some(code) =>
      var marker := " " + ErrorCodeMarker + code + "]";
      StartsWithConcat(head, marker);
      head + marker
  }

  /** The text of `tail` before its first `]`, or `None` when it has no `]`. */
  function CodeBeforeBracket(tail: string): (r: Option<string>)
    ensures r.None? <==> ']' !in tail
    ensures r.Some? ==> OccursAt(tail, r.value + "]", 0) && ']' !in r.value
  {
    match Find(tail, "]")
    case None =>
      NoBracketFound(tail);
      None
    case Some(end) =>
      BracketFound(tail, end);
      Some(tail[..end])
  }

  lemma NoBracketFound(tail: string)
    requires Find(tail, "]").None?
    ensures ']' !in tail
  {
    forall i | 0 <= i < |tail|
      ensures tail[i] != ']'
    {
      assert !OccursAt(tail, "]", i);
      assert tail[i..i + 1] == [tail[i]];
    }
  }

  lemma BracketFound(tail: string, end: nat)
    requires Find(tail, "]") == Some(end)
    ensures end < |tail| && tail[end] == ']'
    ensures OccursAt(tail, tail[..end] + "]", 0) && ']' !in tail[..end]
  {
    assert tail[end..end + 1] == "]";
    assert tail[..end + 1] == tail[..end] + "]";
    forall i | 0 <= i < end
      ensures tail[..end][i] != ']'
    {
      assert !OccursAt(tail, "]", i);
      assert tail[i..i + 1] == [tail[i]];
    }
  }

  /**
   * `extract_error_code_from_message`: the text between the first marker and
   * the first `]` after it; `None` when there is no marker or no `]` follows.
   */
  function ExtractErrorCode(message: string): (r: Option<string>)
    ensures !Contains(message, ErrorCodeMarker) ==> r.None?
    ensures Contains(message, ErrorCodeMarker) ==>
              var codeStart := Find(message, ErrorCodeMarker).value + |ErrorCodeMarker|;
              && (r.None? <==> ']' !in message[codeStart..])
              && (r.Some? ==> OccursAt(message, r.value + "]", codeStart) && ']' !in r.value)
  {
    match Find(message, ErrorCodeMarker)
    case None => None
    case Some(start) =>
      var r := CodeBeforeBracket(message[start + |ErrorCodeMarker|..]);
      assert r.Some? ==> OccursAt(message, r.value + "]", start + |ErrorCodeMarker|) by {
        if r.Some? {
          OccursAtShift(message, start + |ErrorCodeMarker|, r.value + "]");
        }
      }
      r
  }

  /** Two `]`-free texts each followed by `]` at the same place are the same text. */
  lemma BracketedCodeUnique(s: string, p: nat, a: string, b: string)
    requires OccursAt(s, a + "]", p) && OccursAt(s, b + "]", p)
    requires ']' !in a && ']' !in b
    ensures a == b
  {
    assert forall i :: 0 <= i < |a| ==> s[p + i] == (a + "]")[i] == a[i];
    assert forall i :: 0 <= i < |b| ==> s[p + i] == (b + "]")[i] == b[i];
    assert s[p + |a|] == (a + "]")[|a|] == ']';
    assert s[p + |b|] == (b + "]")[|b|] == ']';
    assert |a| == |b|;
  }

  /** Before the marker the fallback finds nothing: no `[` in the prefix, no marker in the status, a space before the marker. */
  lemma NoMarkerBefore(status: string, rest: string, k: nat)
    requires !Contains(status, ErrorCodeMarker)
    requires k < |StatusPrefix + status| + 1
    ensures !OccursAt(StatusPrefix + status + " " + rest, ErrorCodeMarker, k)
  {
    var head := StatusPrefix + status;
    var msg := head + " " + rest;
    var m := |ErrorCodeMarker|;
    if k + m <= |msg| {
      if k < |StatusPrefix| {
        assert msg[k] == StatusPrefix[k];
        assert msg[k..k + m][0] != ErrorCodeMarker[0];
      } else if k + m <= |head| {
        assert msg[k..k + m] == status[k - |StatusPrefix|..k - |StatusPrefix| + m];
        assert !OccursAt(status, ErrorCodeMarker, k - |StatusPrefix|);
      } else {
        assert msg[|head|] == ' ';
        assert msg[k..k + m][|head| - k] != ErrorCodeMarker[|head| - k];
      }
    }
  }

  /** A message whose first marker is followed by `code` and a `]` yields `code`. */
  lemma ExtractAfterFirstMarker(msg: string, start: nat, code: string)
    requires OccursAt(msg, ErrorCodeMarker, start)
    requires forall k :: 0 <= k < start ==> !OccursAt(msg, ErrorCodeMarker, k)
    requires OccursAt(msg, code + "]", start + |ErrorCodeMarker|)
    requires ']' !in code
    ensures ExtractErrorCode(msg) == Some(code)
  {
    FindFirst(msg, ErrorCodeMarker, start);
    var codeStart := start + |ErrorCodeMarker|;
    assert msg[codeStart..][|code|] == (code + "]")[|code|];
    var r := ExtractErrorCode(msg);
    BracketedCodeUnique(msg, codeStart, r.value, code);
  }

  /** A status-error message with a code is the status line, a space, then the marker, the code and `]`. */
  lemma MessageWithCodeShape(status: string, code: string, body: string)
    ensures StatusErrorMessage(status, Some(code), body)
         == StatusPrefix + status + " " + (ErrorCodeMarker + code + "]" + " - " + BodyPreview(body))
  {
    var head := StatusPrefix + status;
    var preview := BodyPreview(body);
    assert StatusErrorMessage(status, Some(code), body) == head + " " + ErrorCodeMarker + code + "]" + " - " + preview;
    ConcatAssoc(head + " ", ErrorCodeMarker, code);
    ConcatAssoc(head + " ", ErrorCodeMarker + code, "]");
    ConcatAssoc(head + " ", ErrorCodeMarker + code + "]", " - ");
    ConcatAssoc(head + " ", ErrorCodeMarker + code + "]" + " - ", preview);
  }

  /** The marker and the code with its `]` sit right after the status line and its space. */
  lemma MarkerFollowsStatus(head: string, code: string, tail: string)
    ensures OccursAt(head + " " + (ErrorCodeMarker + code + "]" + tail), ErrorCodeMarker, |head| + 1)
    ensures OccursAt(head + " " + (ErrorCodeMarker + code + "]" + tail), code + "]", |head| + 1 + |ErrorCodeMarker|)
  {
    var rest := ErrorCodeMarker + code + "]" + tail;
    var msg := head + " " + rest;
    assert msg[|head| + 1..] == rest;
    assert rest[..|ErrorCodeMarker|] == ErrorCodeMarker;
    assert rest[|ErrorCodeMarker|..|ErrorCodeMarker| + |code| + 1] == code + "]";
  }

  /**
   * Round trip of the marker: a status-error message built with detail code
   * `code` gives `code` back, provided `code` holds no `]` and the status
   * rendering holds no marker of its own.
   */
  lemma ErrorCodeRoundTrip(status: string, code: string, body: string)
    requires !Contains(status, ErrorCodeMarker)
    requires ']' !in code
    ensures ExtractErrorCode(StatusErrorMessage(status, Some(code), body)) == Some(code)
  {
    var head := StatusPrefix + status;
    var rest := ErrorCodeMarker + code + "]" + " - " + BodyPreview(body);
    var msg := StatusErrorMessage(status, Some(code), body);
    MessageWithCodeShape(status, code, body);
    MarkerFollowsStatus(head, code, " - " + BodyPreview(body));
    ConcatAssoc(ErrorCodeMarker + code + "]", " - ", BodyPreview(body));
    var start := |head| + 1;
    forall k | 0 <= k < start
      ensures !OccursAt(msg, ErrorCodeMarker, k)
    {
      NoMarkerBefore(status, rest, k);
    }
    ExtractAfterFirstMarker(msg, start, code);
  }

  // ---------------------------------------------------------------------
  // From the usage payload to a quota record
  // ---------------------------------------------------------------------

  const I32Min: int := -0x8000_0000
  const I32Max: int := 0x7FFF_FFFF

  /** Rust's `i32`. */
  type i32 = x: int | I32Min <= x <= I32Max

  /**
   * Two's-complement wrap-around into `i32`, which is what `100 - used`
   * does in a release build (a debug build would panic instead).
   */
  function WrapI32(x: int): (r: i32)
    ensures I32Min <= x <= I32Max ==> r == x
    ensures (r - x) % 0x1_0000_0000 == 0
  {
    (x - I32Min) % 0x1_0000_0000 + I32Min
  }

  /** One rate-limit window of the usage payload. */
  datatype WindowInfo = WindowInfo(
    usedPercent: Option<i32>,
    limitWindowSeconds: Option<int>,
    resetAfterSeconds: Option<int>,
    resetAt: Option<int>)

  datatype RateLimitInfo = RateLimitInfo(
    allowed: Option<bool>,
    limitReached: Option<bool>,
    primaryWindow: Option<WindowInfo>,
    secondaryWindow: Option<WindowInfo>)

  /** The usage payload, as deserialized. */
  datatype UsageResponse = UsageResponse(
    planType: Option<string>,
    rateLimit: Option<RateLimitInfo>,
    codeReviewRateLimit: Option<RateLimitInfo>)

  /** Remaining percentages and reset instants of the 5-hour and weekly windows, with the raw payload. */
  datatype Quota = Quota(
    hourlyPercentage: i32,
    hourlyResetTime: Option<int>,
    weeklyPercentage: i32,
    weeklyResetTime: Option<int>,
    rawData: Option<Json>)

  /** The 5-hour window of a payload, if it has one. */
  function PrimaryWindow(usage: UsageResponse): Option<WindowInfo> {
    if usage.rateLimit.Some? then usage.rateLimit.value.primaryWindow else None
  }

  /** The weekly window of a payload, if it has one. */
  function SecondaryWindow(usage: UsageResponse): Option<WindowInfo> {
    if usage.rateLimit.Some? then usage.rateLimit.value.secondaryWindow else None
  }

  /** Used percentage of a window, zero when absent. */
  function Used(w: WindowInfo): i32 {
    w.usedPercent.GetOr(0)
  }

  /** Remaining percentage and reset instant of one window; a missing window counts as untouched. */
  function Remaining(w: Option<WindowInfo>): (i32, Option<int>) {
    match w
    case None => (100, None)
    case Some(info) => (WrapI32(100 - Used(info)), info.resetAt)
  }

  /**
   * `parse_quota_from_usage`: remaining = 100 - used for each window, with
   * no clamping; a window that is absent gives 100% and no reset time.
   * `rawData` is the outcome of parsing the raw body again.
   */
  function ParseQuotaFromUsage(usage: UsageResponse, rawData: Option<Json>): (q: Quota)
    ensures q.rawData == rawData
    ensures PrimaryWindow(usage).None? ==> q.hourlyPercentage == 100 && q.hourlyResetTime.None?
    ensures PrimaryWindow(usage).Some? ==> q.hourlyResetTime == PrimaryWindow(usage).value.resetAt
    ensures PrimaryWindow(usage).Some? && Used(PrimaryWindow(usage).value) >= 100 - I32Max ==>
              q.hourlyPercentage + Used(PrimaryWindow(usage).value) == 100
    // Out of range, `100 - used` wraps: the stored value is congruent to it modulo 2^32.
    ensures PrimaryWindow(usage).Some? ==>
              (q.hourlyPercentage + Used(PrimaryWindow(usage).value) - 100) % 0x1_0000_0000 == 0
    ensures SecondaryWindow(usage).None? ==> q.weeklyPercentage == 100 && q.weeklyResetTime.None?
    ensures SecondaryWindow(usage).Some? ==> q.weeklyResetTime == SecondaryWindow(usage).value.resetAt
    ensures SecondaryWindow(usage).Some? && Used(SecondaryWindow(usage).value) >= 100 - I32Max ==>
              q.weeklyPercentage + Used(SecondaryWindow(usage).value) == 100
    ensures SecondaryWindow(usage).Some? ==>
              (q.weeklyPercentage + Used(SecondaryWindow(usage).value) - 100) % 0x1_0000_0000 == 0
  {
    var (hourly, hourlyReset) := Remaining(PrimaryWindow(usage));
    var (weekly, weeklyReset) := Remaining(SecondaryWindow(usage));
    Quota(hourly, hourlyReset, weekly, weeklyReset, rawData)
  }

  /** Remaining is not clamped: more than 100% used gives a negative remainder, and a sane payload stays in 0..100. */
  lemma RemainingIsNotClamped(usage: UsageResponse, rawData: Option<Json>)
    requires PrimaryWindow(usage).Some?
    ensures var used := Used(PrimaryWindow(usage).value);
            var q := ParseQuotaFromUsage(usage, rawData);
            && (used > 100 ==> q.hourlyPercentage < 0)
            && (0 <= used <= 100 ==> 0 <= q.hourlyPercentage <= 100)
  {
  }

  /** The plan type and the code-review limits play no part in the quota. */
  lemma QuotaIgnoresCodeReviewLimits(usage: UsageResponse, other: Option<RateLimitInfo>, plan: Option<string>, rawData: Option<Json>)
    ensures ParseQuotaFromUsage(usage.(codeReviewRateLimit := other, planType := plan), rawData)
         == ParseQuotaFromUsage(usage, rawData)
  {
  }

  // ---------------------------------------------------------------------
  // The account record after a refresh attempt
  // ---------------------------------------------------------------------

  datatype Tokens = Tokens(accessToken: string, refreshToken: Option<string>)

  /** The last quota error of an account; `code` is what the message's marker carries. */
  datatype QuotaErrorInfo = QuotaErrorInfo(code: Option<string>, message: string, timestamp: int)

  datatype Account = Account(
    id: string,
    email: string,
    tokens: Tokens,
    quota: Option<Quota>,
    quotaError: Option<QuotaErrorInfo>)

  /** `write_quota_error`: records the error (with its extracted code) and changes nothing else. */
  function WriteQuotaError(account: Account, message: string, now: int): (r: Account)
    ensures r.quotaError.Some?
    ensures r.quotaError.value.message == message && r.quotaError.value.timestamp == now
    ensures r.quotaError.value.code == ExtractErrorCode(message)
    ensures r.(quotaError := account.quotaError) == account
  {
    account.(quotaError := Some(QuotaErrorInfo(ExtractErrorCode(message), message, now)))
  }

  const AccountNotFoundPrefix: string := "Account not found: "
  const TokenRefreshFailedPrefix: string := "Token 已过期且刷新失败: "
  const NoRefreshTokenMessage: string := "Token 已过期且无 refresh_token"

  /** The account as written back (`None`: nothing written) and the outcome reported to the caller. */
  datatype Refreshed = Refreshed(saved: Option<Account>, result: Result<Quota>)

  /**
   * `refresh_account_quota` with its collaborators' outcomes passed in:
   * `stored` is the loaded account, `tokenExpired` the expiry check,
   * `tokenRefresh` the OAuth refresh outcome, `fetch` the outcome of
   * `fetch_quota`, `now` the clock. Success stores the quota and clears the
   * error; every failure after loading records the error and keeps the
   * previous quota.
   */
  function RefreshAccountQuota(
    accountId: string,
    stored: Option<Account>,
    tokenExpired: bool,
    tokenRefresh: Result<Tokens>,
    fetch: Result<Quota>,
    now: int): (r: Refreshed)
    ensures stored.None? ==> r == Refreshed(None, Err(AccountNotFoundPrefix + accountId))
    ensures stored.Some? ==> r.saved.Some? && r.saved.value.id == stored.value.id
    ensures r.result.Ok? <==>
              && stored.Some?
              && fetch.Ok?
              && (tokenExpired ==> stored.value.tokens.refreshToken.Some? && tokenRefresh.Ok?)
    ensures r.result.Ok? ==> r.result == fetch
    ensures r.result.Ok? ==> r.saved.value.quota == Some(fetch.value) && r.saved.value.quotaError.None?
    ensures stored.Some? && r.result.Err? ==> r.saved.value.quota == stored.value.quota
    ensures stored.Some? && r.result.Err? ==>
              r.saved.value.quotaError == Some(QuotaErrorInfo(ExtractErrorCode(r.result.error), r.result.error, now))
    // Which error: the two token failures, else whatever the fetch reported.
    ensures stored.Some? && tokenExpired && stored.value.tokens.refreshToken.None? ==>
              r.result == Err(NoRefreshTokenMessage)
    ensures stored.Some? && tokenExpired && stored.value.tokens.refreshToken.Some? && tokenRefresh.Err? ==>
              r.result == Err(TokenRefreshFailedPrefix + tokenRefresh.error)
    ensures stored.Some? && (tokenExpired ==> stored.value.tokens.refreshToken.Some? && tokenRefresh.Ok?) ==>
              r.result == fetch
    // The saved tokens are the refreshed ones exactly when a refresh happened and succeeded.
    ensures stored.Some? ==>
              r.saved.value.tokens
              == if tokenExpired && stored.value.tokens.refreshToken.Some? && tokenRefresh.Ok?
                 then tokenRefresh.value else stored.value.tokens
    // Nothing but the tokens, the quota and the quota error changes.
    ensures stored.Some? ==>
              r.saved.value.(tokens := stored.value.tokens, quota := stored.value.quota,
                             quotaError := stored.value.quotaError) == stored.value
  {
    match stored
    case None => Refreshed(None, Err(AccountNotFoundPrefix + accountId))
    case Some(account) =>
      if tokenExpired && account.tokens.refreshToken.None? then
        Refreshed(Some(WriteQuotaError(account, NoRefreshTokenMessage, now)), Err(NoRefreshTokenMessage))
      else if tokenExpired && tokenRefresh.Err? then
        var message := TokenRefreshFailedPrefix + tokenRefresh.error;
        Refreshed(Some(WriteQuotaError(account, message, now)), Err(message))
      else
        var current := if tokenExpired then account.(tokens := tokenRefresh.value) else account;
        match fetch
        case Err(e) => Refreshed(Some(WriteQuotaError(current, e, now)), Err(e))
        case Ok(quota) => Refreshed(Some(current.(quota := Some(quota), quotaError := None)), Ok(quota))
  }

  /**
   * End to end: when the usage endpoint answers with a non-success status
   * and a body carrying a detail code, the account keeps its quota and its
   * recorded error carries that code.
   */
  lemma FailedFetchRecordsDetailCode(
    account: Account, status: string, parsed: Option<Json>, body: string, code: string, now: int)
    requires DetailCode(parsed) == Some(code)
    requires !Contains(status, ErrorCodeMarker) && ']' !in code
    ensures var message := StatusErrorMessage(status, DetailCode(parsed), body);
            var r := RefreshAccountQuota(account.id, Some(account), false, Err(""), Err(message), now);
            && r.saved.value.quota == account.quota
            && r.saved.value.quotaError.value.code == Some(code)
            && r.result == Err(message)
  {
    ErrorCodeRoundTrip(status, code, body);
  }
}
