/**
 * The pure parts of a Codex wake-up: log trimming, the reply text, the
 * stdout fallback, deduplicated CLI candidate paths, the default prompt,
 * and the per-account duplicate-suppression state. Spawning the CLI,
 * the file system and the clock are left out; their outcomes and `now`
 * are parameters.
 */
module CodexWakeup {
  import opened Base
  import opened Text
  import CodexQuota

  const ModelHourly: string := "codex-hourly"
  const ModelWeekly: string := "codex-weekly"
  const CliModel: string := "gpt-5.3-codex"
  const CliReasoningLevel: string := "low"
  const DefaultWakeupPrompt: string := "Reply with exactly: OK"
  /** A second wake-up of one account within this many milliseconds is skipped. */
  const DuplicateWakeupWindowMs: int := 8000

  // ---------------------------------------------------------------------
  // Log trimming
  // ---------------------------------------------------------------------

  const Ellipsis: string := "..."

  /** `trim_for_log`: at most `maxChars` characters of `value`, marked with `...` when cut. */
  function TrimForLog(value: string, maxChars: nat): (r: string)
    ensures |value| <= maxChars ==> r == value
    ensures |value| > maxChars ==> |r| == maxChars + |Ellipsis|
    ensures |value| > maxChars ==> StartsWith(r, value[..maxChars]) && EndsWith(r, Ellipsis)
  {
    if |value| <= maxChars then value else value[..maxChars] + Ellipsis
  }

  /** Trimming for the log twice is trimming once. */
  lemma TrimForLogIdempotent(value: string, maxChars: nat)
    ensures TrimForLog(TrimForLog(value, maxChars), maxChars) == TrimForLog(value, maxChars)
  {
    var once := TrimForLog(value, maxChars);
    if |value| > maxChars {
      assert once[..maxChars] == value[..maxChars];
    }
  }

  // ---------------------------------------------------------------------
  // The reply text
  // ---------------------------------------------------------------------

  /** `"{old}% -> {new}%"`, or `"{new}%"` when there was no previous quota. */
  function RemainingText(oldRemaining: Option<int>, newRemaining: int): (r: string)
    ensures EndsWith(r, IntToString(newRemaining) + "%")
    ensures oldRemaining.Some? ==> StartsWith(r, IntToString(oldRemaining.value) + "% -> ")
    ensures oldRemaining.Some? ==>
              |r| == |IntToString(oldRemaining.value) + "% -> "| + |IntToString(newRemaining) + "%"|
    ensures oldRemaining.None? ==> r == IntToString(newRemaining) + "%"
  {
    match oldRemaining
    case Some(o) => IntToString(o) + "% -> " + IntToString(newRemaining) + "%"
    case None => IntToString(newRemaining) + "%"
  }

  /** The remaining text determines the percentages it reports: different changes read differently. */
  lemma RemainingTextDetermines(o1: Option<int>, n1: int, o2: Option<int>, n2: int)
    requires RemainingText(o1, n1) == RemainingText(o2, n2)
    ensures o1 == o2 && n1 == n2
  {
    if o1.Some? && o2.Some? {
      ChangesReadDifferently(o1.value, n1, o2.value, n2);
    } else if o1.None? && o2.None? {
      PercentsReadDifferently(n1, n2);
    } else if o1.Some? {
      ChangeIsNotPercent(o1.value, n1, n2);
      assert false;
    } else {
      ChangeIsNotPercent(o2.value, n2, n1);
      assert false;
    }
  }

  /** `IntToString(v) + "% -> " + …` split at its first `%`. */
  lemma ChangeText(v: int, n: int)
    ensures '%' !in IntToString(v) && '%' !in IntToString(n)
    ensures RemainingText(Some(v), n) == IntToString(v) + ['%'] + (" -> " + IntToString(n) + "%")
  {
    DecimalLacks(IntToString(v), '%');
    DecimalLacks(IntToString(n), '%');
  }

  lemma ChangesReadDifferently(v1: int, n1: int, v2: int, n2: int)
    requires RemainingText(Some(v1), n1) == RemainingText(Some(v2), n2)
    ensures v1 == v2 && n1 == n2
  {
    ChangeText(v1, n1);
    ChangeText(v2, n2);
    var rest1, rest2 := " -> " + IntToString(n1) + "%", " -> " + IntToString(n2) + "%";
    SplitAtFirst(IntToString(v1), rest1, IntToString(v2), rest2, '%');
    assert IntToString(n1) == rest1[4..|rest1| - 1];
    assert IntToString(n2) == rest2[4..|rest2| - 1];
    IntToStringRoundTrip(v1);
    IntToStringRoundTrip(v2);
    IntToStringRoundTrip(n1);
    IntToStringRoundTrip(n2);
  }

  lemma PercentsReadDifferently(n1: int, n2: int)
    requires RemainingText(None, n1) == RemainingText(None, n2)
    ensures n1 == n2
  {
    assert IntToString(n1) == RemainingText(None, n1)[..|RemainingText(None, n1)| - 1];
    assert IntToString(n2) == RemainingText(None, n2)[..|RemainingText(None, n2)| - 1];
    IntToStringRoundTrip(n1);
    IntToStringRoundTrip(n2);
  }

  /** A change `old% -> new%` never reads as a single percentage: it has a second `%`. */
  lemma ChangeIsNotPercent(v: int, n: int, n2: int)
    ensures RemainingText(Some(v), n) != RemainingText(None, n2)
  {
    ChangeText(v, n);
    var b2 := IntToString(n2);
    DecimalLacks(b2, '%');
    assert RemainingText(None, n2) == b2 + ['%'] + [];
    if RemainingText(Some(v), n) == RemainingText(None, n2) {
      SplitAtFirst(IntToString(v), " -> " + IntToString(n) + "%", b2, [], '%');
      assert false;
    }
  }

  /**
   * `describe_window_change`; `formatReset` stands for `format_reset_time`,
   * whose local-time formatting is left out.
   */
  function DescribeWindowChange(
    name: string, oldRemaining: Option<int>, newRemaining: int, resetAt: Option<int>,
    formatReset: Option<int> -> string): (r: string)
    ensures StartsWith(r, name + " remaining ")
    ensures EndsWith(r, ", reset " + formatReset(resetAt))
    ensures oldRemaining.Some? ==>
              OccursAt(r, IntToString(oldRemaining.value) + "% -> " + IntToString(newRemaining) + "%",
                       |name + " remaining "|)
    ensures oldRemaining.None? ==> OccursAt(r, IntToString(newRemaining) + "%", |name + " remaining "|)
    ensures |r| == |name + " remaining "| + |RemainingText(oldRemaining, newRemaining)|
                   + |", reset " + formatReset(resetAt)|
  {
    var r := name + " remaining " + RemainingText(oldRemaining, newRemaining) + ", reset " + formatReset(resetAt);
    assert r == (name + " remaining ") + RemainingText(oldRemaining, newRemaining) + (", reset " + formatReset(resetAt));
    r
  }

  /** The sentence naming the CLI model and reasoning level. */
  const CliModelPart: string := " Used CLI model " + CliModel + " (reasoning: " + CliReasoningLevel + ")."

  /** The reply of the CLI, trimmed and cut to 140 characters; empty when the reply is blank. */
  function CliReplyPart(cliReply: string): (r: string)
    ensures r == [] <==> Trim(cliReply) == []
    ensures r != [] ==> StartsWith(r, " Reply: ") && |r| <= |" Reply: "| + 140 + |Ellipsis|
    ensures 0 < |Trim(cliReply)| <= 140 ==> r == " Reply: " + Trim(cliReply)
    ensures |Trim(cliReply)| > 140 ==> r == " Reply: " + Trim(cliReply)[..140] + Ellipsis
  {
    var trimmed := Trim(cliReply);
    if |trimmed| == 0 then "" else " Reply: " + TrimForLog(trimmed, 140)
  }

  /** The two quota windows. */
  datatype Window = Hourly | Weekly

  /**
   * Which windows a reply reports for a window id: the 5-hour window for
   * `codex-hourly`, the weekly window for `codex-weekly`, both otherwise.
   */
  function WindowsFor(model: string): seq<Window> {
    if model == ModelHourly then [Hourly]
    else if model == ModelWeekly then [Weekly]
    else [Hourly, Weekly]
  }

  /** The description of one window's change between the old and the new quota. */
  function DescribeWindow(
    w: Window, oldQuota: Option<CodexQuota.Quota>, newQuota: CodexQuota.Quota,
    formatReset: Option<int> -> string): string
  {
    match w
    case Hourly =>
      DescribeWindowChange("5h", if oldQuota.Some? then Some(oldQuota.value.hourlyPercentage as int) else None,
                           newQuota.hourlyPercentage as int, newQuota.hourlyResetTime, formatReset)
    case Weekly =>
      DescribeWindowChange("Weekly", if oldQuota.Some? then Some(oldQuota.value.weeklyPercentage as int) else None,
                           newQuota.weeklyPercentage as int, newQuota.weeklyResetTime, formatReset)
  }

  function DescribeAll(
    ws: seq<Window>, oldQuota: Option<CodexQuota.Quota>, newQuota: CodexQuota.Quota,
    formatReset: Option<int> -> string): seq<string>
  {
    seq(|ws|, i requires 0 <= i < |ws| => DescribeWindow(ws[i], oldQuota, newQuota, formatReset))
  }

  /** The window part of a reply: the change of the window `model` names, both windows for any other id. */
  function WindowsText(
    model: string, oldQuota: Option<CodexQuota.Quota>, newQuota: CodexQuota.Quota,
    formatReset: Option<int> -> string): string
  {
    var hourly := DescribeWindow(Hourly, oldQuota, newQuota, formatReset);
    var weekly := DescribeWindow(Weekly, oldQuota, newQuota, formatReset);
    if model == ModelHourly then hourly
    else if model == ModelWeekly then weekly
    else hourly + " | " + weekly
  }

  const CompletedWithoutQuota: string := "Codex wakeup request completed."
  const CompletedWithQuota: string := "Codex wakeup completed. "

  /**
   * `build_reply`: without a new quota a fixed sentence; with one, the
   * change of the window the id names (both windows, joined by ` | `, for
   * any other id); then the CLI model and the CLI's reply.
   */
  function BuildReply(
    model: string, oldQuota: Option<CodexQuota.Quota>, newQuota: Option<CodexQuota.Quota>,
    cliReply: string, formatReset: Option<int> -> string): (r: string)
    ensures newQuota.None? ==> r == CompletedWithoutQuota + CliModelPart + CliReplyPart(cliReply)
    ensures newQuota.None? ==> StartsWith(r, CompletedWithoutQuota)
    ensures newQuota.Some? ==> StartsWith(r, CompletedWithQuota)
    ensures EndsWith(r, CliModelPart + CliReplyPart(cliReply))
  {
    var tail := CliModelPart + CliReplyPart(cliReply);
    if newQuota.None? then
      StartsWithConcat(CompletedWithoutQuota, tail);
      EndsWithConcat(CompletedWithoutQuota, tail);
      ConcatAssoc(CompletedWithoutQuota, CliModelPart, CliReplyPart(cliReply));
      CompletedWithoutQuota + tail
    else
      var windows := WindowsText(model, oldQuota, newQuota.value, formatReset) + ".";
      StartsWithConcat(CompletedWithQuota, windows + tail);
      EndsWithConcat(CompletedWithQuota + windows, tail);
      ConcatAssoc(CompletedWithQuota, windows, tail);
      CompletedWithQuota + windows + tail
  }

  /**
   * The window part of a reply describes exactly the windows `WindowsFor`
   * names, in that order, joined by ` | `.
   */
  lemma WindowsTextDescribesNamedWindows(
    model: string, oldQuota: Option<CodexQuota.Quota>, newQuota: CodexQuota.Quota,
    formatReset: Option<int> -> string)
    ensures WindowsText(model, oldQuota, newQuota, formatReset)
         == Join(DescribeAll(WindowsFor(model), oldQuota, newQuota, formatReset), " | ")
  {
    var hourly := DescribeWindow(Hourly, oldQuota, newQuota, formatReset);
    var weekly := DescribeWindow(Weekly, oldQuota, newQuota, formatReset);
    if model == ModelHourly {
      DescribeOne(Hourly, oldQuota, newQuota, formatReset);
    } else if model == ModelWeekly {
      DescribeOne(Weekly, oldQuota, newQuota, formatReset);
    } else {
      DescribeBoth(oldQuota, newQuota, formatReset);
      JoinTwo(hourly, weekly, " | ");
    }
  }

  lemma DescribeOne(
    w: Window, oldQuota: Option<CodexQuota.Quota>, newQuota: CodexQuota.Quota,
    formatReset: Option<int> -> string)
    ensures DescribeAll([w], oldQuota, newQuota, formatReset) == [DescribeWindow(w, oldQuota, newQuota, formatReset)]
  {
  }

  lemma DescribeBoth(
    oldQuota: Option<CodexQuota.Quota>, newQuota: CodexQuota.Quota,
    formatReset: Option<int> -> string)
    ensures DescribeAll([Hourly, Weekly], oldQuota, newQuota, formatReset)
         == [DescribeWindow(Hourly, oldQuota, newQuota, formatReset), DescribeWindow(Weekly, oldQuota, newQuota, formatReset)]
  {
  }

  lemma JoinTwo(a: string, b: string, sep: string)
    ensures Join([a, b], sep) == a + sep + b
  {
    assert [a, b][1..] == [b];
  }

  /** With a new quota the reply is the heading, the named windows, then the CLI parts. */
  lemma BuildReplyDescribesNamedWindows(
    model: string, oldQuota: Option<CodexQuota.Quota>, newQuota: CodexQuota.Quota,
    cliReply: string, formatReset: Option<int> -> string)
    ensures BuildReply(model, oldQuota, Some(newQuota), cliReply, formatReset)
         == CompletedWithQuota + Join(DescribeAll(WindowsFor(model), oldQuota, newQuota, formatReset), " | ")
            + "." + CliModelPart + CliReplyPart(cliReply)
  {
    WindowsTextDescribesNamedWindows(model, oldQuota, newQuota, formatReset);
    var windows := WindowsText(model, oldQuota, newQuota, formatReset) + ".";
    assert BuildReply(model, oldQuota, Some(newQuota), cliReply, formatReset)
        == CompletedWithQuota + windows + (CliModelPart + CliReplyPart(cliReply));
    ConcatAssoc(CompletedWithQuota + windows, CliModelPart, CliReplyPart(cliReply));
    ConcatAssoc(CompletedWithQuota, WindowsText(model, oldQuota, newQuota, formatReset), ".");
  }

  // ---------------------------------------------------------------------
  // The last message of a CLI run
  // ---------------------------------------------------------------------

  const TokensUsedLine: string := "tokens used"
  const FallbackReply: string := "Wakeup request sent."

  /** `.map(|line| line.trim())`: every line trimmed (see `TrimAllTrimsEachLine`). */
  function TrimAll(lines: seq<string>): (r: seq<string>)
    ensures |r| == |lines|
  {
    if |lines| == 0 then [] else [Trim(lines[0])] + TrimAll(lines[1..])
  }

  /** Line `i` of the trimmed lines is line `i` trimmed. */
  lemma {:induction false} TrimAllTrimsEachLine(lines: seq<string>, i: nat)
    requires i < |lines|
    ensures TrimAll(lines)[i] == Trim(lines[i])
  {
    if i > 0 {
      TrimAllTrimsEachLine(lines[1..], i - 1);
    }
  }

  /** A trimmed stdout line that can stand for the CLI's reply: not empty and not the token-usage banner. */
  predicate IsReplyText(line: string) {
    line != "" && line != TokensUsedLine
  }

  /** Line `i` is a reply line and no later line is. */
  predicate IsLastReply(lines: seq<string>, i: int) {
    0 <= i < |lines| && IsReplyText(lines[i]) && forall j :: i < j < |lines| ==> !IsReplyText(lines[j])
  }

  predicate HasReply(lines: seq<string>) {
    exists i :: 0 <= i < |lines| && IsReplyText(lines[i])
  }

  /** The output file was read and holds more than whitespace. */
  predicate UsableFile(fileContent: Option<string>) {
    fileContent.Some? && Trim(fileContent.value) != ""
  }

  /**
   * `read_last_message`: the trimmed contents of the output file when it
   * was read (`fileContent`) and is not blank; otherwise the last trimmed
   * stdout line that is a reply line; otherwise a fixed sentence.
   */
  method ReadLastMessage(fileContent: Option<string>, stdout: string) returns (r: string)
    ensures UsableFile(fileContent) ==> r == Trim(fileContent.value)
    ensures !UsableFile(fileContent) && !HasReply(TrimAll(Lines(stdout))) ==> r == FallbackReply
    ensures !UsableFile(fileContent) && HasReply(TrimAll(Lines(stdout))) ==>
              exists i :: IsLastReply(TrimAll(Lines(stdout)), i) && r == TrimAll(Lines(stdout))[i]
  {
    if UsableFile(fileContent) {
      return Trim(fileContent.value);
    }
    var lines := TrimAll(Lines(stdout));
    var found, i := FindLastReply(lines);
    if found {
      return lines[i];
    }
    return FallbackReply;
  }

  /** Scans `lines` from the end for the last reply line. */
  method FindLastReply(lines: seq<string>) returns (found: bool, i: int)
    ensures found ==> IsLastReply(lines, i)
    ensures !found ==> !HasReply(lines)
  {
    var k := |lines|;
    while k > 0
      invariant 0 <= k <= |lines|
      invariant forall j :: k <= j < |lines| ==> !IsReplyText(lines[j])
    {
      if IsReplyText(lines[k - 1]) {
        return true, k - 1;
      }
      k := k - 1;
    }
    return false, -1;
  }

  // ---------------------------------------------------------------------
  // CLI candidate paths
  // ---------------------------------------------------------------------

  /** Paths are compared by their lower-cased text. */
  function PathKey(path: string): string {
    ToLower(path)
  }

  function Keys(list: seq<string>): set<string> {
    set p | p in list :: PathKey(p)
  }

  /** No two listed paths share a key. */
  predicate DistinctKeys(list: seq<string>) {
    forall i, j :: 0 <= i < j < |list| ==> PathKey(list[i]) != PathKey(list[j])
  }

  /** The list and the seen-set agree, and the list holds one path per key. */
  predicate CandidatesInvariant(list: seq<string>, seen: set<string>) {
    seen == Keys(list) && DistinctKeys(list)
  }

  /** `add_candidate`: appends `path` unless a path with its key was seen before. */
  function AddCandidate(list: seq<string>, seen: set<string>, path: string): (r: (seq<string>, set<string>))
    ensures PathKey(path) in seen ==> r == (list, seen)
    ensures PathKey(path) !in seen ==> r.0 == list + [path]
    ensures r.1 == seen + {PathKey(path)}
    ensures CandidatesInvariant(list, seen) ==> CandidatesInvariant(r.0, r.1)
  {
    var key := PathKey(path);
    if key in seen then (list, seen)
    else
      var list' := list + [path];
      assert Keys(list') == Keys(list) + {key} by {
        assert forall p :: p in list' <==> p in list || p == path;
      }
      (list', seen + {key})
  }

  lemma KeysOfLongerPrefix(paths: seq<string>, n: nat)
    requires n < |paths|
    ensures Keys(paths[..n + 1]) == Keys(paths[..n]) + {PathKey(paths[n])}
  {
    assert forall p :: p in paths[..n + 1] <==> p in paths[..n] || p == paths[n];
  }

  /** A path whose key is not among the keys of the paths before it differs in key from each of them. */
  lemma UnseenKeyIsNew(paths: seq<string>, n: nat)
    requires n < |paths| && PathKey(paths[n]) !in Keys(paths[..n])
    ensures forall k :: 0 <= k < n ==> PathKey(paths[k]) != PathKey(paths[n])
  {
    forall k | 0 <= k < n
      ensures PathKey(paths[k]) != PathKey(paths[n])
    {
      assert paths[k] in paths[..n];
    }
  }

  /**
   * `list[i]` was met at `paths[firstAt[i]]`, among the first `n` paths,
   * no earlier path has its key, and the list keeps the order of meeting.
   */
  ghost predicate FirstOccurrences(paths: seq<string>, n: nat, list: seq<string>, firstAt: seq<nat>) {
    && n <= |paths|
    && |firstAt| == |list|
    && (forall i :: 0 <= i < |list| ==> firstAt[i] < n && paths[firstAt[i]] == list[i])
    && (forall i, k :: 0 <= i < |list| && 0 <= k < firstAt[i] ==> PathKey(paths[k]) != PathKey(list[i]))
    && (forall i, j :: 0 <= i < j < |list| ==> firstAt[i] < firstAt[j])
  }

  lemma FirstOccurrencesKeep(paths: seq<string>, n: nat, list: seq<string>, firstAt: seq<nat>)
    requires n < |paths| && FirstOccurrences(paths, n, list, firstAt)
    ensures FirstOccurrences(paths, n + 1, list, firstAt)
  {
  }

  lemma FirstOccurrencesAppend(paths: seq<string>, n: nat, list: seq<string>, firstAt: seq<nat>)
    requires n < |paths| && FirstOccurrences(paths, n, list, firstAt)
    requires forall k :: 0 <= k < n ==> PathKey(paths[k]) != PathKey(paths[n])
    ensures FirstOccurrences(paths, n + 1, list + [paths[n]], firstAt + [n])
  {
  }

  /**
   * The candidate list `codex_cli_candidates` builds by calling
   * `add_candidate` on each path in turn: one path per key, each the first
   * path with that key, in first-seen order. `firstAt[i]` is where `r[i]`
   * was met in `paths`.
   */
  method CollectCandidates(paths: seq<string>) returns (r: seq<string>, ghost firstAt: seq<nat>)
    ensures DistinctKeys(r)
    ensures Keys(r) == Keys(paths)
    ensures |firstAt| == |r|
    ensures forall i :: 0 <= i < |r| ==> firstAt[i] < |paths| && paths[firstAt[i]] == r[i]
    ensures forall i, k :: 0 <= i < |r| && 0 <= k < firstAt[i] ==> PathKey(paths[k]) != PathKey(r[i])
    ensures forall i, j :: 0 <= i < j < |r| ==> firstAt[i] < firstAt[j]
  {
    var list: seq<string> := [];
    var seen: set<string> := {};
    firstAt := [];
    for n := 0 to |paths|
      invariant CandidatesInvariant(list, seen)
      invariant seen == Keys(paths[..n])
      invariant FirstOccurrences(paths, n, list, firstAt)
    {
      KeysOfLongerPrefix(paths, n);
      if PathKey(paths[n]) !in seen {
        UnseenKeyIsNew(paths, n);
        FirstOccurrencesAppend(paths, n, list, firstAt);
        firstAt := firstAt + [n];
      } else {
        FirstOccurrencesKeep(paths, n, list, firstAt);
      }
      var added := AddCandidate(list, seen, paths[n]);
      list, seen := added.0, added.1;
    }
    assert paths[..|paths|] == paths;
    r := list;
  }

  // ---------------------------------------------------------------------
  // The prompt
  // ---------------------------------------------------------------------

  /** The prompt sent to the CLI: the caller's prompt trimmed, or the default when it is blank. */
  function FinalPrompt(prompt: string): (r: string)
    ensures r != "" && Trim(r) == r
    ensures Trim(prompt) != "" ==> r == Trim(prompt)
    ensures Trim(prompt) == "" ==> r == DefaultWakeupPrompt
  {
    TrimIdempotent(prompt);
    DefaultPromptIsTrimmed();
    if Trim(prompt) == "" then DefaultWakeupPrompt else Trim(prompt)
  }

  lemma DefaultPromptIsTrimmed()
    ensures Trim(DefaultWakeupPrompt) == DefaultWakeupPrompt
  {
    var d := DefaultWakeupPrompt;
    assert d[0] == 'R' && d[|d| - 1] == 'K';
    assert SkipWhitespace(d, 0) == 0;
    assert SkipWhitespaceBack(d, |d|) == |d|;
    assert d[0..|d|] == d;
  }

  /** Defaulting a prompt that was already defaulted changes nothing. */
  lemma FinalPromptIdempotent(prompt: string)
    ensures FinalPrompt(FinalPrompt(prompt)) == FinalPrompt(prompt)
  {
  }

  // ---------------------------------------------------------------------
  // Duplicate suppression
  // ---------------------------------------------------------------------

  /** Last execution time, in milliseconds, per account id. */
  type WakeupState = map<string, int>

  datatype Reservation = Reservation(granted: bool, state: WakeupState)

  /** An execution of `accountId` at `now` would repeat one started less than the window ago. */
  predicate IsDuplicate(state: WakeupState, accountId: string, now: int) {
    accountId in state && now - state[accountId] < DuplicateWakeupWindowMs
  }

  /**
   * `try_reserve_wakeup` with the clock passed in: refused, with the state
   * untouched, when the account ran less than 8000 ms ago; otherwise
   * granted, stamping the account with `now` and leaving every other
   * account as it was.
   */
  function TryReserveWakeup(state: WakeupState, accountId: string, now: int): (r: Reservation)
    ensures r.granted <==> !IsDuplicate(state, accountId, now)
    ensures !r.granted ==> r.state == state
    ensures r.granted ==> r.state.Keys == state.Keys + {accountId} && r.state[accountId] == now
    ensures forall a :: a in state && a != accountId ==> a in r.state && r.state[a] == state[a]
  {
    if accountId in state && now - state[accountId] < DuplicateWakeupWindowMs then Reservation(false, state)
    else Reservation(true, state[accountId := now])
  }

  /** `release_wakeup_reservation`: forgets the account and nothing else. */
  function ReleaseWakeupReservation(state: WakeupState, accountId: string): (r: WakeupState)
    ensures r.Keys == state.Keys - {accountId}
    ensures forall a :: a in r ==> r[a] == state[a]
  {
    state - {accountId}
  }

  /** After a release the next reservation of that account is granted, whatever the time. */
  lemma ReserveAfterRelease(state: WakeupState, accountId: string, now: int)
    ensures TryReserveWakeup(ReleaseWakeupReservation(state, accountId), accountId, now).granted
  {
  }

  /** A granted reservation blocks the same account until the window has passed, and only then. */
  lemma ReservationBlocksWithinWindow(state: WakeupState, accountId: string, now: int, later: int)
    requires TryReserveWakeup(state, accountId, now).granted
    ensures var next := TryReserveWakeup(TryReserveWakeup(state, accountId, now).state, accountId, later);
            next.granted <==> later - now >= DuplicateWakeupWindowMs
  {
  }

  // ---------------------------------------------------------------------
  // One wake-up
  // ---------------------------------------------------------------------

  /** What the blocking CLI task came back with. */
  datatype CliOutcome =
    | CliReply(reply: string)       // the run succeeded with this last message
    | CliFailed(error: string)      // the run itself failed
    | TaskFailed(error: string)     // the background task could not be joined

  const AccountNotFoundPrefix: string := "Codex account not found: "
  const TaskFailedPrefix: string := "Codex wakeup background task failed: "
  const SkippedReply: string := "Skipped duplicate wakeup request (recently executed for this account)."

  /**
   * The collaborators of the quota refresh that follows a run (see
   * `CodexQuota.RefreshAccountQuota`): the token expiry check, the OAuth
   * refresh outcome, the fetch outcome and the clock reading it uses.
   */
  datatype QuotaRefresh = QuotaRefresh(
    tokenExpired: bool,
    tokenRefresh: Result<CodexQuota.Tokens>,
    fetch: Result<CodexQuota.Quota>,
    at: int)

  /** `refresh_account_quota` run on the account after a skipped or successful wake-up. */
  function RefreshAfterRun(accountId: string, account: CodexQuota.Account, refresh: QuotaRefresh): CodexQuota.Refreshed {
    CodexQuota.RefreshAccountQuota(accountId, Some(account), refresh.tokenExpired, refresh.tokenRefresh, refresh.fetch, refresh.at)
  }

  /** The new quota a reply reports: the refreshed one, or none when the refresh failed. */
  function NewQuota(refreshed: CodexQuota.Refreshed): (q: Option<CodexQuota.Quota>)
    ensures q.Some? <==> refreshed.result.Ok?
    ensures q.Some? ==> refreshed.result == Ok(q.value)
  {
    if refreshed.result.Ok? then Some(refreshed.result.value) else None
  }

  /**
   * The outcome of one wake-up: the reservation state afterwards, the
   * account as the quota refresh wrote it back (`None`: nothing written)
   * and the reply or error.
   */
  datatype Wakeup = Wakeup(state: WakeupState, saved: Option<CodexQuota.Account>, reply: Result<string>)

  /**
   * `trigger_wakeup` once the account is loaded: `cli` is what running the
   * CLI on the final prompt would give, consulted only when the reservation
   * is granted. A duplicate is not run but still answered; a failed run
   * releases the reservation, skips the refresh and reports the error.
   */
  function WakeupAccount(
    state: WakeupState, accountId: string, account: CodexQuota.Account,
    model: string, now: int, cli: CliOutcome, refresh: QuotaRefresh,
    formatReset: Option<int> -> string): (r: Wakeup)
    ensures IsDuplicate(state, accountId, now) ==>
              var refreshed := RefreshAfterRun(accountId, account, refresh);
              && r.state == state
              && r.saved == refreshed.saved
              && r.reply == Ok(BuildReply(model, account.quota, NewQuota(refreshed), SkippedReply, formatReset))
    ensures !IsDuplicate(state, accountId, now) && cli.CliReply? ==>
              var refreshed := RefreshAfterRun(accountId, account, refresh);
              && r.state == state[accountId := now]
              && r.saved == refreshed.saved
              && r.reply == Ok(BuildReply(model, account.quota, NewQuota(refreshed), cli.reply, formatReset))
    ensures !IsDuplicate(state, accountId, now) && cli.CliFailed? ==>
              r == Wakeup(state - {accountId}, None, Err(cli.error))
    ensures !IsDuplicate(state, accountId, now) && cli.TaskFailed? ==>
              r == Wakeup(state - {accountId}, None, Err(TaskFailedPrefix + cli.error))
  {
    var reservation := TryReserveWakeup(state, accountId, now);
    var refreshed := RefreshAfterRun(accountId, account, refresh);
    if reservation.granted then
      assert ReleaseWakeupReservation(reservation.state, accountId) == state - {accountId};
      match cli
      case CliReply(reply) =>
        Wakeup(reservation.state, refreshed.saved,
               Ok(BuildReply(model, account.quota, NewQuota(refreshed), reply, formatReset)))
      case CliFailed(error) =>
        Wakeup(ReleaseWakeupReservation(reservation.state, accountId), None, Err(error))
      case TaskFailed(error) =>
        Wakeup(ReleaseWakeupReservation(reservation.state, accountId), None, Err(TaskFailedPrefix + error))
    else
      Wakeup(state, refreshed.saved, Ok(BuildReply(model, account.quota, NewQuota(refreshed), SkippedReply, formatReset)))
  }

  /**
   * `trigger_wakeup` with its collaborators passed in: `account` is the
   * loaded account, `runCli` the CLI run for a prompt, `refresh` the
   * collaborators of the quota refresh that follows, `formatReset` the reset
   * time formatting. A missing account is an error and changes nothing;
   * otherwise the CLI is run on the defaulted, trimmed prompt.
   */
  function TriggerWakeup(
    state: WakeupState, accountId: string, account: Option<CodexQuota.Account>,
    model: string, prompt: string, now: int,
    runCli: string -> CliOutcome, refresh: QuotaRefresh,
    formatReset: Option<int> -> string): (r: Wakeup)
    ensures account.None? ==> r == Wakeup(state, None, Err(AccountNotFoundPrefix + accountId))
    ensures account.Some? ==>
              r == WakeupAccount(state, accountId, account.value, model, now, runCli(FinalPrompt(prompt)),
                                 refresh, formatReset)
  {
    match account
    case None => Wakeup(state, None, Err(AccountNotFoundPrefix + accountId))
    case Some(a) => WakeupAccount(state, accountId, a, model, now, runCli(FinalPrompt(prompt)), refresh, formatReset)
  }

  /** A failed CLI run ends with the account's entry released, whatever it held before. */
  lemma FailedRunReleases(
    state: WakeupState, accountId: string, account: CodexQuota.Account,
    model: string, prompt: string, now: int,
    runCli: string -> CliOutcome, refresh: QuotaRefresh,
    formatReset: Option<int> -> string)
    requires !IsDuplicate(state, accountId, now)
    requires !runCli(FinalPrompt(prompt)).CliReply?
    ensures TriggerWakeup(state, accountId, Some(account), model, prompt, now, runCli, refresh, formatReset).state
         == ReleaseWakeupReservation(state, accountId)
  {
  }

  /** A failed CLI run leaves the account free: the next wake-up is not taken for a duplicate. */
  lemma FailedRunDoesNotBlockRetry(
    state: WakeupState, accountId: string, account: CodexQuota.Account,
    model: string, prompt: string, now: int, later: int,
    runCli: string -> CliOutcome, refresh: QuotaRefresh,
    formatReset: Option<int> -> string)
    requires !IsDuplicate(state, accountId, now)
    requires !runCli(FinalPrompt(prompt)).CliReply?
    ensures TryReserveWakeup(
              TriggerWakeup(state, accountId, Some(account), model, prompt, now, runCli, refresh, formatReset).state,
              accountId, later).granted
  {
    FailedRunReleases(state, accountId, account, model, prompt, now, runCli, refresh, formatReset);
    ReserveAfterRelease(state, accountId, later);
  }

  /**
   * End to end: a successful run followed by a successful refresh stores
   * the fetched quota, clears the account's error and replies with the
   * window report and the CLI's message.
   */
  lemma SuccessfulWakeupStoresQuota(
    state: WakeupState, accountId: string, account: CodexQuota.Account,
    model: string, prompt: string, now: int,
    runCli: string -> CliOutcome, quota: CodexQuota.Quota, at: int,
    formatReset: Option<int> -> string)
    requires !IsDuplicate(state, accountId, now)
    requires runCli(FinalPrompt(prompt)).CliReply?
    ensures var r := TriggerWakeup(state, accountId, Some(account), model, prompt, now, runCli,
                                   QuotaRefresh(false, Err(""), Ok(quota), at), formatReset);
            && r.saved.Some?
            && r.saved.value.quota == Some(quota) && r.saved.value.quotaError.None?
            && r.reply.Ok?
            && StartsWith(r.reply.value, CompletedWithQuota)
            && EndsWith(r.reply.value, CliModelPart + CliReplyPart(runCli(FinalPrompt(prompt)).reply))
  {
  }
}
