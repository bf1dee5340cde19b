# Codex wake-up and quota core, modelled in Dafny

This project models the pure logic in three Rust modules of the Codex tooling in
`src-tauri/src/modules`:

- **Wake-up history** (`codex_wakeup_history.rs`). `add_history_items` merges a batch of
  execution records into the stored log. It drops new records whose id is already
  stored, puts the survivors in front, stable-sorts newest first and keeps at most 100
  records. `clear_history` empties the log.
- **Quota refresh** (`codex_quota.rs`). A usage payload becomes a quota record
  (remaining = 100 − used per window). A non-success response becomes an error message
  that may carry an `[error_code:…]` marker, and the marker is later extracted again. The
  account record then stores either the new quota or the error.
- **Wake-up** (`codex_wakeup.rs`). This covers log trimming, the reply text, the stdout
  fallback for the CLI's last message, case-insensitive deduplication of CLI candidate
  paths, the default prompt, and the per-account duplicate-suppression map. That map
  skips a second wake-up of one account within 8000 ms and is released when the CLI run
  fails.

Files: `base.dfy` (`Option`, `Result`), `text.dfy` (the `str` operations the code relies
on: `trim`, `lines`, `find`, `to_lowercase`, integer display), `history.dfy`
(`WakeupHistory`), `quota.dfy` (`CodexQuota`), `wakeup.dfy` (`CodexWakeup`).

All state is passed as plain values. The stored history is a `seq`, the reservation
state is a `map<string, int>` and `now` is a parameter. Every collaborator the code calls
is represented by its outcome. That covers the loaded account, the token-refresh
outcome, the fetch outcome, the CLI run as a function from prompt to outcome, and the
reset-time formatter.

Notes on fidelity:

- A Dafny `char` is a Unicode scalar value, which is what Rust's `chars()` yields, so
  `trim_for_log`'s character count is exact. `find` and slicing at the ASCII markers
  `[error_code:` and `]` give character indices. These name the same positions as
  Rust's byte offsets.
- The body preview is the one byte-level operation. It is modelled through UTF-8
  widths (`ByteLen`).
- `str::lines` is modelled as a split at `'\n'`. `read_last_message` trims every line
  and skips blank ones. Under that use, the two differ only in the `'\r'` before a
  `'\n'`, the empty piece after a final newline, and empty input (one empty piece
  instead of none). All three are removed by the trim and the blank-line filter.
- `100 - used` is `i32` arithmetic. It is modelled with two's-complement wrap-around,
  as in a release build, by `WrapI32`.
- A JSON object is a `map`, because serde_json keeps only the last of repeated keys.

## Model

| member | source | states |
|---|---|---|
| `WakeupHistory.AddHistoryItems` | src-tauri/src/modules/codex_wakeup_history.rs:62-95 | An empty batch, or a batch whose ids are all stored already, leaves the stored history unchanged. Otherwise the result is newest first and holds exactly min(survivors + stored, 100) items. A history within capacity and newest first stays so. The result holds only surviving new items and stored items (multiset inclusion). |
| `WakeupHistory.Unknown` | src-tauri/src/modules/codex_wakeup_history.rs:71-77 | An item survives exactly when it is in the batch and its id is not among the stored ids. Survivors are never more than the batch. |
| `WakeupHistory.UnknownCounts` | src-tauri/src/modules/codex_wakeup_history.rs:74-77 | Every copy of a batch item with an unstored id survives, and no item with a stored id does. |
| `WakeupHistory.UnknownAppend` | src-tauri/src/modules/codex_wakeup_history.rs:74-77 | The filter keeps batch order: the survivors of `a + b` are the survivors of `a` followed by those of `b`. |
| `WakeupHistory.UnknownKeepsAllNewIds` | src-tauri/src/modules/codex_wakeup_history.rs:74-77 | When no batch id is stored, the whole batch survives unchanged, including its internal duplicates. |
| `WakeupHistory.BatchDuplicatesKept` | src-tauri/src/modules/codex_wakeup_history.rs:71-80 | Two distinct new items sharing one id both end up in the history. Only stored ids are deduplicated against. |
| `WakeupHistory.SortByTimestampDesc` | src-tauri/src/modules/codex_wakeup_history.rs:85 | The sort result is a permutation of its input, with timestamps non-increasing. |
| `WakeupHistory.InsertPermutes` | src-tauri/src/modules/codex_wakeup_history.rs:85 | One insertion step of the sort adds exactly the inserted item and loses nothing (multiset equality). |
| `WakeupHistory.SortIsStable` | src-tauri/src/modules/codex_wakeup_history.rs:85 | For every timestamp, the items carrying it appear in the same relative order before and after sorting. |
| `WakeupHistory.MergeIsStable` | src-tauri/src/modules/codex_wakeup_history.rs:83-86 | Among equal timestamps, the merged history lists the surviving new items first, in batch order, and then the stored items, in stored order. It is a prefix of that run. |
| `WakeupHistory.MergeOrigins` | src-tauri/src/modules/codex_wakeup_history.rs:71-84 | Every item of the merged history was stored before or is a batch item whose id was not stored. |
| `WakeupHistory.MergeLosesNothingUnderCapacity` | src-tauri/src/modules/codex_wakeup_history.rs:83-86 | When survivors plus stored items number at most 100, the result is exactly those items (multiset equality). |
| `WakeupHistory.MergeDropsOnlyOldest` | src-tauri/src/modules/codex_wakeup_history.rs:85-86 | Every item lost to truncation is no newer than any item kept. |
| `WakeupHistory.SortedPrefixKeepsNewest` | src-tauri/src/modules/codex_wakeup_history.rs:86 | In a newest-first list, whatever lies beyond the first n items is no newer than any of them. |
| `WakeupHistory.Truncate` | src-tauri/src/modules/codex_wakeup_history.rs:86 | The result is a prefix of the list, and it holds exactly min(length, n) items. |
| `WakeupHistory.ClearHistory` | src-tauri/src/modules/codex_wakeup_history.rs:97-104 | Clearing leaves an empty, well-formed history. |
| `WakeupHistory.ClearThenAdd` | src-tauri/src/modules/codex_wakeup_history.rs:101 | After clearing, no id is known any more. Adding a batch then stores the batch sorted and cut to capacity. |
| `Text.Trim` | src-tauri/src/modules/codex_wakeup.rs:253-254 | `str::trim`: the result is the part of the input with only whitespace before and after it, and it neither starts nor ends with whitespace. It is empty exactly when the input is all whitespace. |
| `Text.TrimIdempotent` | src-tauri/src/modules/codex_wakeup.rs:392-396 | Trimming a trimmed text changes nothing. |
| `Text.Find` | src-tauri/src/modules/codex_quota.rs:37 | `str::find`: a result is an occurrence with no earlier one, and there is none exactly when the pattern does not occur. |
| `Text.SplitJoin` | src-tauri/src/modules/codex_wakeup.rs:260 | Splitting stdout into lines loses nothing: the lines joined by `\n` give back the text. |
| `Text.SplitPiecesHaveNoSeparator` | src-tauri/src/modules/codex_wakeup.rs:260 | No line of a split holds the separator. |
| `Text.IntToString` | src-tauri/src/modules/codex_wakeup.rs:64-65 | The `Display` rendering of an integer is decimal digits after an optional `-`, and the `-` is there exactly for negative numbers. Zero is `0`; any other number has no leading zero. |
| `Text.IntToStringRoundTrip` | src-tauri/src/modules/codex_wakeup.rs:64-65 | Reading the rendering back as a decimal number gives the integer, so the rendering is exact. |
| `Text.NatToStringRoundTrip` | src-tauri/src/modules/codex_wakeup.rs:64-65 | Reading the digits of a natural number back gives the number. |
| `CodexQuota.DetailCode` | src-tauri/src/modules/codex_quota.rs:17-33 | An unparsable body gives no code. Otherwise a string at `detail.code` wins. Failing that, a top-level `code` string is used, else there is no code. |
| `CodexQuota.ExtractErrorCode` | src-tauri/src/modules/codex_quota.rs:35-41 | A message without the marker gives no code. Otherwise there is no code exactly when no `]` follows the first marker. A code is the text right after the first marker, it is followed by `]` there, and it holds no `]`. |
| `CodexQuota.CodeBeforeBracket` | src-tauri/src/modules/codex_quota.rs:39-40 | The text after the marker yields nothing exactly when it has no `]`. Otherwise the code followed by `]` starts it, and the code holds no `]`. |
| `CodexQuota.BracketedCodeUnique` | src-tauri/src/modules/codex_quota.rs:39-40 | Two `]`-free codes that are each followed by `]` at one position are the same code, so the extracted code is determined. |
| `CodexQuota.StatusErrorMessage` | src-tauri/src/modules/codex_quota.rs:147-153 | The message starts with the status line and ends with ` - ` plus the body preview. Without a detail code there is nothing in between. |
| `CodexQuota.ErrorCodeRoundTrip` | src-tauri/src/modules/codex_quota.rs:148-152 | A message built with code c extracts back to c, provided c has no `]` and the status text has no marker. |
| `CodexQuota.BodyPreviewAsWritten` | src-tauri/src/modules/codex_quota.rs:147 | A body of at most 200 bytes is its own preview. A longer one is cut to exactly 200 bytes. When byte 200 is not a character boundary there is no result (the slice panics). |
| `CodexQuota.PreviewPanicsInsideCharacter` | src-tauri/src/modules/codex_quota.rs:147 | For a 201-byte body of 199 `a` followed by `é`, the slice in `fetch_quota` panics. |
| `CodexQuota.TakeBytes` | src-tauri/src/modules/codex_quota.rs:147 | The cut returns the prefix of exactly n bytes. It fails exactly when no prefix has n bytes. |
| `CodexQuota.BodyPreview` | src-tauri/src/modules/codex_quota.rs:147 | (corrected) The preview is a prefix of the body within 200 bytes, the whole body when it fits, and otherwise maximal. It never fails. |
| `CodexQuota.TakeAtMostBytes` | src-tauri/src/modules/codex_quota.rs:147 | (corrected) The result is the longest prefix within n bytes that ends on a character boundary. |
| `CodexQuota.BodyPreviewAgreesAsWritten` | src-tauri/src/modules/codex_quota.rs:147 | Wherever the slice in `fetch_quota` succeeds, the corrected preview is the same text. |
| `CodexQuota.WrapI32` | src-tauri/src/modules/codex_quota.rs:170 | i32 subtraction keeps in-range values and otherwise wraps modulo 2^32. |
| `CodexQuota.ParseQuotaFromUsage` | src-tauri/src/modules/codex_quota.rs:164-197 | Hourly is (100 − used, primary reset), with used defaulting to 0; a missing primary window gives (100, none). Weekly follows the same rule from the secondary window. When `100 − used` leaves the i32 range, the stored value is congruent to it modulo 2^32, as the release build wraps. The raw payload is kept. |
| `CodexQuota.RemainingIsNotClamped` | src-tauri/src/modules/codex_quota.rs:168-175 | More than 100% used gives a negative remainder. A usage in 0..100 gives a remainder in 0..100. |
| `CodexQuota.QuotaIgnoresCodeReviewLimits` | src-tauri/src/modules/codex_quota.rs:164-185 | The plan type and the code-review limits do not affect the quota. |
| `CodexQuota.WriteQuotaError` | src-tauri/src/modules/codex_quota.rs:43-49 | It records the message, the timestamp and the message's extracted code. Nothing else in the account changes. |
| `CodexQuota.RefreshAccountQuota` | src-tauri/src/modules/codex_quota.rs:200-251 | A missing account gives `Account not found` and nothing is saved. Success happens iff the fetch succeeds and the token is valid or was refreshed; it stores the quota and clears the error. An expired token without a refresh token gives `Token 已过期且无 refresh_token`. A failed refresh gives `Token 已过期且刷新失败: ` plus the refresh error. Otherwise the result is the fetch's own outcome. Every failure keeps the quota and records its error with its extracted code. The saved tokens are the refreshed ones exactly when a refresh succeeded. No other field of the account changes. |
| `CodexQuota.FailedFetchRecordsDetailCode` | src-tauri/src/modules/codex_quota.rs:234-243 | Suppose a non-success response has detail code c. Then the account keeps its quota and its recorded error code is c. |
| `CodexWakeup.TrimForLog` | src-tauri/src/modules/codex_wakeup.rs:75-82 | The input is returned unchanged when it has at most max characters. Otherwise the result is its first max characters followed by `...`, so it is max + 3 characters long. |
| `CodexWakeup.TrimForLogIdempotent` | src-tauri/src/modules/codex_wakeup.rs:75-82 | Trimming an already trimmed text changes nothing. |
| `CodexWakeup.DescribeWindowChange` | src-tauri/src/modules/codex_wakeup.rs:57-73 | The description is `<name> remaining `, then `<old>% -> <new>%` (or `<new>%` without an old value) with the numbers in decimal, then `, reset ` and the formatted reset time, and nothing else. |
| `CodexWakeup.RemainingText` | src-tauri/src/modules/codex_wakeup.rs:63-66 | With an old value the text starts with `old% -> `, ends with `new%`, and is no longer than those two parts, so it is exactly `old% -> new%`; without an old value it is exactly `new%`. `RemainingTextDetermines` is its partner. |
| `CodexWakeup.RemainingTextDetermines` | src-tauri/src/modules/codex_wakeup.rs:63-66 | The remaining text determines the old and new percentages: two texts are equal only when both percentages agree and both or neither have an old value. |
| `CodexWakeup.CliReplyPart` | src-tauri/src/modules/codex_wakeup.rs:94-98 | The reply part is empty iff the trimmed CLI reply is empty. A trimmed reply of at most 140 characters follows ` Reply: ` whole. A longer one is cut to its first 140 characters plus `...`. |
| `CodexWakeup.BuildReply` | src-tauri/src/modules/codex_wakeup.rs:84-134 | Without a new quota the reply is exactly `Codex wakeup request completed.` followed by the CLI-model sentence and the reply part. With one, it starts `Codex wakeup completed. ` and ends with the CLI-model sentence and the reply part. |
| `CodexWakeup.WindowsTextDescribesNamedWindows` | src-tauri/src/modules/codex_wakeup.rs:120-133 | `codex-hourly` describes only the 5h window and `codex-weekly` only the weekly one. Any other id describes both, joined by ` \| `. |
| `CodexWakeup.BuildReplyDescribesNamedWindows` | src-tauri/src/modules/codex_wakeup.rs:107-133 | With a new quota, the reply is the heading, the named windows' descriptions, `.`, and the CLI parts. |
| `CodexWakeup.ReadLastMessage` | src-tauri/src/modules/codex_wakeup.rs:251-266 | A non-blank output file gives its trimmed contents. Otherwise the stdout lines are trimmed, and the result is the last trimmed line that is neither empty nor `tokens used`. If there is none, it is `Wakeup request sent.`. |
| `CodexWakeup.FindLastReply` | src-tauri/src/modules/codex_wakeup.rs:262-263 | Scanning the trimmed lines from the end finds a line that is a reply line with no reply line after it, and reports none only when no line is a reply line. |
| `CodexWakeup.TrimAllTrimsEachLine` | src-tauri/src/modules/codex_wakeup.rs:260-261 | Trimming every line keeps the line count and trims line i into position i. |
| `CodexWakeup.AddCandidate` | src-tauri/src/modules/codex_wakeup.rs:150-155 | A path is appended only when its lower-cased key is unseen, and the key is then marked seen. The list/seen-set invariant (one path per key, seen = keys of the list) is preserved. |
| `CodexWakeup.CollectCandidates` | src-tauri/src/modules/codex_wakeup.rs:157-208 | Adding paths in turn yields one path per lower-cased key, covering every key offered. Each kept path is the first one offered with its key, in first-seen order. |
| `CodexWakeup.FinalPrompt` | src-tauri/src/modules/codex_wakeup.rs:392-396 | The prompt sent is the caller's trimmed prompt, or `Reply with exactly: OK` when that is blank. It is never blank and is already trimmed. |
| `CodexWakeup.FinalPromptIdempotent` | src-tauri/src/modules/codex_wakeup.rs:392-396 | Defaulting a defaulted prompt changes nothing. |
| `CodexWakeup.TryReserveWakeup` | src-tauri/src/modules/codex_wakeup.rs:358-368 | The reservation is refused, with the map unchanged, exactly when the account's last time satisfies now − last < 8000. Otherwise it is granted, the account is stamped with now, and every other entry is unchanged. |
| `CodexWakeup.ReleaseWakeupReservation` | src-tauri/src/modules/codex_wakeup.rs:370-373 | Release removes exactly that account's entry. |
| `CodexWakeup.ReserveAfterRelease` | src-tauri/src/modules/codex_wakeup.rs:370-373 | After a release, the next reservation of that account is granted at any time. |
| `CodexWakeup.ReservationBlocksWithinWindow` | src-tauri/src/modules/codex_wakeup.rs:358-368 | After a granted reservation at time `now`, a reservation at time `later` is granted iff later − now ≥ 8000. |
| `CodexWakeup.WakeupAccount` | src-tauri/src/modules/codex_wakeup.rs:398-438 | With the account loaded: a duplicate is not run and the state is unchanged; a successful run stamps the account with now. In both cases the quota refresh runs, its saved account is the result's, and the reply is `build_reply` over the loaded quota, the refreshed quota (none when the refresh failed) and the skip message or the CLI reply. A failed run releases the account, skips the refresh and returns the CLI error as is, or the join error after `Codex wakeup background task failed: `. |
| `CodexWakeup.NewQuota` | src-tauri/src/modules/codex_wakeup.rs:427-436 | The reply reports a new quota exactly when the refresh succeeded, and then it is the refreshed quota. |
| `CodexWakeup.SuccessfulWakeupStoresQuota` | src-tauri/src/modules/codex_wakeup.rs:427-438 | A successful run with a successful refresh saves the fetched quota, clears the error, and replies with the window report and the CLI's message. |
| `CodexWakeup.FailedRunDoesNotBlockRetry` | src-tauri/src/modules/codex_wakeup.rs:406-417 | After a failed CLI run, a reservation for that account succeeds right away. |

## Findings

| source | as written | input that shows it | evidently intended | confidence | as-written member | corrected member |
|---|---|---|---|---|---|---|
| src-tauri/src/modules/codex_quota.rs:147 | `&body[..200]` slices at byte 200 whenever the body is longer than 200 bytes | a body of 199 `a` followed by `é` (201 bytes): byte 200 falls inside `é` and the slice panics instead of returning the error | cut at the last character boundary at or before byte 200 | high (not executed) | `CodexQuota.BodyPreviewAsWritten` (`CodexQuota.PreviewPanicsInsideCharacter`) | `CodexQuota.BodyPreview` |

`StatusErrorMessage` and everything after it use the corrected preview.
`CodexQuota.BodyPreviewAgreesAsWritten` shows the two previews agree wherever the
slice in `fetch_quota` does not panic.

## Left out

- File I/O of the history: loading, saving with a temporary file and rename, and the
  `HISTORY_LOCK` mutex. The stored list is a parameter and the list to store is the
  result.
- A history file that cannot be read. `load_history().unwrap_or_default()` turns it
  into an empty list, which callers of `AddHistoryItems` pass as `[]`. A failed save is
  not modelled either.
- HTTP fetching, header construction, and the OAuth token check and refresh.
  `RefreshAccountQuota` takes their outcomes (`tokenExpired`, `tokenRefresh`, `fetch`)
  as parameters.
- serde parsing and serialisation, replaced by the `Json` datatype and the
  `UsageResponse` records. `DetailCode` takes the parse outcome. `ParseQuotaFromUsage`
  takes the raw payload's parse outcome.
- Saving the account. A failed save turns the result into the save error at two
  points: after a successful token refresh (`codex_quota.rs:213`, before the fetch)
  and on the success path (`codex_quota.rs:248`). The model does not show either; a
  failed save of a recorded error is only logged and changes nothing.
- The account reload inside `refresh_account_quota`. `TriggerWakeup` hands the
  refresh the account it loaded, as if no other writer ran in between.
- `refresh_all_quotas`, which only loops `refresh_account_quota` over the stored
  accounts.
- `format_reset_time`, which depends on the local time zone. It is a function parameter
  `formatReset`.
- Spawning the CLI, temporary `CODEX_HOME` directories, environment and `PATH` lookup,
  `is_file` probing and the Windows `cmd /C` wrapping. `TriggerWakeup` takes the CLI run
  as `runCli`. `CollectCandidates` takes the candidate paths in the order
  `codex_cli_candidates` would offer them. Whether the output file could be read is the
  `fileContent` parameter of `ReadLastMessage`.
- `fetch_available_models`, which returns a constant list, and the
  `duration_ms`/token fields of the wake-up response. The clock is not modelled, and
  the token fields are always empty.
- `CodexWakeup.PathKey`: `to_lowercase` is modelled for ASCII letters only. Non-ASCII
  case mapping is not modelled, so two paths differing only in non-ASCII case are
  treated as distinct.
- `CodexWakeup.TryReserveWakeup`: `now - last` is `i64` arithmetic and is modelled on
  unbounded integers. Millisecond timestamps are far from overflow.
- The mutexes around the reservation map and the async runtime. Every operation is a
  function from state to state.
- Logging.
