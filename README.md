# Desktop shell of the local agent: error page and backend sidecar

The Tauri desktop shell starts the Node backend (`node server.js`) as a
child process, retries a failed start with exponential backoff, and, when
the backend does not come up, replaces the window's content with an HTML
error page that shows the failure message and the last lines of the
backend log. This project models the two parts of the shell that hold
logic, and proves properties of that model:

- `error_page.dfy`, module `ErrorPage` (pure): `html_escape` exactly as
  written (four chained `str::replace` calls), a per-character reference
  escape, a decoder, the log box (each line escaped, joined by newlines,
  with a placeholder when that text is empty) and `generate_error_html`
  with its template as fixed text.
- `sidecar.dfy`, module `Sidecar` (mixed): class `SidecarManager` with the
  child slot (`Option<Child>`) and `max_retries = 3`; `spawn`,
  `spawn_with_retry`, `is_running` and `shutdown` as methods; the retry
  policy as a reference function `RetrySpec`; `read_last_log_lines` as an
  iterator chain over the log file's text, with Rust's `str::lines`.
- `startup.dfy`, module `Startup`: the error page built from the last 20
  log lines, as the shell does after a failed start.

The operating system is an oracle. The outcome of every spawn request is a
parameter `oracle: nat -> SpawnOutcome` (attempt i of one
`spawn_with_retry` run receives `oracle(i)`); what `Child::try_wait`
reports is a `WaitStatus` parameter; the log file's text is an
`Option<string>` parameter (`None` when it cannot be read). Each
`thread::sleep` of the retry loop appends its delay, in seconds, to the
ghost list `sleeps`; `spawnCalls` counts spawn requests and `stopped`
records the children `shutdown` took out of the slot.

`Replace` models Rust's `str::replace`: left to right, non-overlapping.
`html_escape` is proved equal to the per-character map because the chain
is seen stage by stage (`EscapeUpTo(k, s)` is the text after the first k
replace calls): `&` is replaced first, so no later call meets an `&` it
introduced, and no entity holds `<`, `>` or `"`. Decoding runs the chain
backwards (`&quot;`, `&gt;`, `&lt;`, then `&amp;`); it relies on the four
entities differing in their second character.

In `spawn_with_retry` the shift amount `attempts - 1` is bound to a `nat`
variable, so the verifier checks that it never goes below zero, and it is
asserted to stay below 64, the width of the `u64` it shifts.

The statement "spawn is called at most `max_retries` times" holds for the
shell's `max_retries = 3`; in general the loop calls spawn
max(1, `max_retries`) times, since the first call happens before the
failure count is compared with the limit. `RetrySpec` states the general
behaviour and `RetryAttemptBounds` both bounds.

## Model

| member | source | states |
|---|---|---|
| `ErrorPage.Replace` | src-tauri/src/error_page.rs:91-94 | definition as written: Rust's `str::replace`, left to right, non-overlapping |
| `ErrorPage.HtmlEscape` | src-tauri/src/error_page.rs:90-95 | definition as written: the four chained replace calls, `&` first |
| `ErrorPage.LogBox` | src-tauri/src/error_page.rs:3-7 | definition as written: the escaped lines joined by `"\n"`, or the placeholder of lines 82-86 when that text is empty |
| `ErrorPage.GenerateErrorHtml` | src-tauri/src/error_page.rs:1-87 | definition as written: fixed head, escaped message, fixed middle, log box, fixed tail |
| `ErrorPage.HtmlEscapeIsPerChar` | src-tauri/src/error_page.rs:90-95 | the chained replaces equal the per-character map `&`→`&amp;`, `<`→`&lt;`, `>`→`&gt;`, `"`→`&quot;`, other characters unchanged |
| `ErrorPage.EscapeStep` | src-tauri/src/error_page.rs:91-94 | the k-th replace call of the chain rewrites only the k-th special character, because `&` is escaped before the entities that introduce `&` |
| `ErrorPage.HtmlEscapeAppend` | src-tauri/src/error_page.rs:90-95 | escaping distributes over concatenation |
| `ErrorPage.HtmlEscapeNoMarkup` | src-tauri/src/error_page.rs:92-94 | no `<`, `>` or `"` occurs in the escaped text |
| `ErrorPage.HtmlEscapeKeepsOut` | src-tauri/src/error_page.rs:90-95 | a character absent from the input and not used by the entities (such as a newline) is absent from the output |
| `ErrorPage.HtmlEscapeLength` | src-tauri/src/error_page.rs:90-95 | exact output length: input length plus 4 per `&`, 3 per `<` and `>`, 5 per `"` |
| `ErrorPage.HtmlEscapeLengthBounds` | src-tauri/src/error_page.rs:90-95 | output at least as long as the input, and exactly as long iff none of the four special characters occurs |
| `ErrorPage.HtmlEscapeFixedPoint` | src-tauri/src/error_page.rs:90-95 | a string is returned unchanged iff it holds none of `&`, `<`, `>`, `"` |
| `ErrorPage.ApostropheNotEscaped` | src-tauri/src/error_page.rs:90-95 | `'` is not escaped (`it's` is returned as is) |
| `ErrorPage.HtmlEscapeEmpty` | src-tauri/src/error_page.rs:90-95 | the escape is empty iff the input is empty |
| `ErrorPage.UnescapeStep` | src-tauri/src/error_page.rs:91-94 | decoding the k-th entity undoes exactly the k-th replace call |
| `ErrorPage.UnescapeHtmlEscape` | src-tauri/src/error_page.rs:90-95 | decoding `&quot;`, `&gt;`, `&lt;` and then `&amp;` recovers the input of the escape |
| `ErrorPage.HtmlEscapeInjective` | src-tauri/src/error_page.rs:90-95 | two different strings never escape to the same text |
| `ErrorPage.LogBoxFallback` | src-tauri/src/error_page.rs:82-86 | the joined escaped logs are empty iff there is no log line or one empty line, and then the log box is exactly `No log output available.` |
| `ErrorPage.LogBoxLines` | src-tauri/src/error_page.rs:3-7 | for log lines that hold no `'\n'` (as every caller passes: lines from `str::lines`, or the two fixed dev-mode lines) and that are not the empty cases above, the log box split at newlines is each log line escaped individually, in the original order, one piece per line |
| `ErrorPage.LogBoxNoTag` | src-tauri/src/error_page.rs:3-7 | the log box text holds no `<` |
| `ErrorPage.TemplateTagsFollow` | src-tauri/src/error_page.rs:73-74 | the template text after the message and after the log box starts with a tag |
| `ErrorPage.ErrorPageLayout` | src-tauri/src/error_page.rs:1-87 | the page starts with the fixed head; the whole text of the `.message` paragraph is the escaped message, which decodes back to the message; the `.log-box` text is the log box content |
| `Sidecar.DecimalString` | src-tauri/src/sidecar.rs:162-165 | `{}` of `max_retries`: at least one character, decimal digits only, no leading zero |
| `Sidecar.SpawnError` | src-tauri/src/sidecar.rs:59 | definition as written: `Failed to spawn node process: ` followed by the OS error |
| `Sidecar.SpawnResult` | src-tauri/src/sidecar.rs:45-111 | definition as written: `Ok` for a started child, the prefixed OS error otherwise |
| `Sidecar.ExhaustedError` | src-tauri/src/sidecar.rs:162-165 | definition as written: `Backend failed to start after <max_retries> attempts: <last error>` |
| `Sidecar.RetrySpec` | src-tauri/src/sidecar.rs:153-176 | definition as written, in closed form: the first start within the budget ends the run, otherwise the budget is spent and the last error reported |
| `Sidecar.DecimalRoundTrip` | src-tauri/src/sidecar.rs:162-165 | the decimal text of `max_retries` in the error message reads back as `max_retries` |
| `Sidecar.RetryAttemptBounds` | src-tauri/src/sidecar.rs:153-165 | spawn is called at least once and at most `max_retries` times (once when it is 0), with one delay between consecutive attempts |
| `Sidecar.RetryStopsAtFirstStart` | src-tauri/src/sidecar.rs:156-158 | the run succeeds iff some attempt within the budget starts the process, and then the first such attempt ends the run |
| `Sidecar.RetryAllFail` | src-tauri/src/sidecar.rs:159-165 | when every attempt fails the result is `Err("Backend failed to start after <max_retries> attempts: Failed to spawn node process: <last OS error>")` |
| `Sidecar.DefaultRetryDelays` | src-tauri/src/sidecar.rs:160-172 | with `max_retries = 3` and three failures: three attempts, delays exactly [1 s, 2 s], and the error names 3 attempts |
| `Sidecar.SidecarManager.constructor` | src-tauri/src/sidecar.rs:17-25 | `new` starts with an empty child slot and `max_retries = 3` |
| `Sidecar.SidecarManager.Spawn` | src-tauri/src/sidecar.rs:45-68 | a started child is stored in the slot and `Ok` returned; a failed spawn leaves the slot alone and returns the prefixed OS error |
| `Sidecar.SidecarManager.SpawnWithRetry` | src-tauri/src/sidecar.rs:153-176 | the loop's result, number of spawn calls, delays slept (2^(k-1) s after the k-th failure, none after the last) and final slot are those of `RetrySpec` |
| `Sidecar.SidecarManager.IsRunning` | src-tauri/src/sidecar.rs:115-122 | true iff a child is in the slot and `try_wait` reports it still running; false whenever the slot is empty |
| `Sidecar.SidecarManager.Shutdown` | src-tauri/src/sidecar.rs:124-151 | the slot is empty afterwards; the child it held, if any, is the one stopped; with an empty slot nothing changes |
| `Sidecar.ShutdownTwice` | src-tauri/src/sidecar.rs:124-126 | a second `shutdown` changes nothing, and `is_running` is then false |
| `Sidecar.Lines` | src-tauri/src/sidecar.rs:181 | definition as written: Rust's `str::lines` (split at `\n`, one `\r` before it dropped, no empty line after a final line end) |
| `Sidecar.LastLines` | src-tauri/src/sidecar.rs:182-186 | definition as written: `rev().take(n).rev()` |
| `Sidecar.ReadLastLogLines` | src-tauri/src/sidecar.rs:178-189 | definition as written: the unreadable file read as empty text, then `lines().rev().take(n).rev()` |
| `Sidecar.LinesHaveNoNewline` | src-tauri/src/sidecar.rs:181 | no line produced by `str::lines` holds a newline |
| `Sidecar.LastLinesIsSuffix` | src-tauri/src/sidecar.rs:182-186 | `rev().take(n).rev()` is the last min(n, L) lines in original order |
| `Sidecar.ReadLastLogLinesSpec` | src-tauri/src/sidecar.rs:178-189 | `read_last_log_lines(n)` is the last min(n, L) log lines in file order; empty when n = 0 or the log cannot be read |
| `Startup.StartupErrorPage` | src-tauri/src/lib.rs:99-102 | definition as written: the error page for the failure message and the last 20 log lines |
| `Startup.StartupErrorPageLayout` | src-tauri/src/lib.rs:99-102 | on that page the message is the whole escaped `.message` text and decodes back to the message; the `.log-box` text is the log box of the last 20 log lines |
| `Startup.StartupLogBox` | src-tauri/src/lib.rs:99-102 | the error page after a failed start shows at most 20 log lines, each escaped, in file order, or the placeholder |

## Left out

- `health.rs` (`poll_health`): HTTP polling with `reqwest` and tokio timers; network I/O and wall-clock time.
- `lib.rs`: Tauri builder wiring, window navigation, the `eval` of the page through `serde_json::to_string`, the async runtime and the `Mutex`-guarded application state. Only the page built from the last 20 log lines after a failed start is modelled (`Startup`).
- `resolve_log_path`: depends on platform directories; the log path is a constructor parameter.
- The `log_path` and `project_root` fields are kept only for the shape of `new`: the log file is read through its text, passed to `ReadLastLogLines`, and the working directory of the spawned process is part of the spawn left out below.
- The process spawn itself (`Command::new("node")`, its working directory and environment), the threads that copy stdout and stderr into the log file, `println!`/`eprintln!` output and the creation of the log directory: operating-system I/O. Their effect is the oracle's outcome.
- Sidecar.SidecarManager.Shutdown: does not model the `kill`, the `try_wait` polling every 100 ms with its 5 s deadline, or the forced kill; only the effect on the slot and the record of the stopped child.
- Sidecar.SidecarManager.IsRunning: `try_wait` may reap an exited child; the model keeps the slot as is, as the source does.
- Sidecar.SidecarManager.Spawn: a successful spawn replaces a child already in the slot without stopping it, as in the source; the model records no process being dropped.
- `Drop for SidecarManager`: it calls `shutdown`, which is modelled; object destruction is not.
- The `Arc<Mutex<…>>` around the slot: concurrency is not modelled, each method is one atomic step.
- Sidecar.SidecarManager.SpawnWithRetry: the shift is proved below 64 only for `max_retries = 3`; the `u64` shift overflow a `max_retries` above 65 would cause is not modelled, nor `u32` wrap-around of the counter, which the bound rules out.
- The CSS text of the page is kept as fixed template lines; its contents carry no logic.
- Characters are Dafny `char`s; UTF-8 encoding of the page is not modelled.
