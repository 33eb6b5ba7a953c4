/** The manager of the Node backend process ("sidecar"): the child-process
    slot, the spawn-with-retry policy with exponential backoff, and the
    selection of the last lines of the backend log. The operating system is
    an oracle: what each spawn request yields and what `try_wait` reports
    are parameters; sleeping is recorded in a ghost log. */
module Sidecar {

  datatype Option<T> = None | Some(value: T)

  datatype Result<T> = Ok(value: T) | Err(error: string)

  /** A running `node server.js` child process, identified by its pid. */
  datatype Child = Child(pid: nat)

  /** What the operating system does with one spawn request. */
  datatype SpawnOutcome = Started(child: Child) | SpawnFailed(osError: string)

  /** What `Child::try_wait` reports. */
  datatype WaitStatus = Exited | StillRunning | WaitFailed

  /** The `max_retries` every manager is built with. */
  const DefaultMaxRetries: nat := 3

  // ---------------------------------------------------------------------
  // Messages
  // ---------------------------------------------------------------------

  function DigitChar(d: nat): char
    requires d < 10
  {
    "0123456789"[d]
  }

  /** `{}` formatting of an unsigned integer: its decimal digits, with no
      leading zero. */
  function DecimalString(n: nat): (r: string)
    ensures |r| >= 1 && forall i | 0 <= i < |r| :: '0' <= r[i] <= '9'
    ensures n >= 10 ==> r[0] != '0'
    decreases n
  {
    if n < 10 then [DigitChar(n)] else DecimalString(n / 10) + [DigitChar(n % 10)]
  }

  /** Reads back a string of decimal digits. */
  function DecimalValue(s: string): nat
    decreases |s|
  {
    if |s| == 0 then 0
    else
      var d := s[|s| - 1] as int - '0' as int;
      DecimalValue(s[..|s| - 1]) * 10 + (if 0 <= d < 10 then d else 0)
  }

  /** The decimal text of `n` reads back as `n`. */
  lemma {:induction false} DecimalRoundTrip(n: nat)
    ensures DecimalValue(DecimalString(n)) == n
    decreases n
  {
    if n >= 10 {
      DecimalRoundTrip(n / 10);
      var s := DecimalString(n);
      assert s[..|s| - 1] == DecimalString(n / 10);
    }
  }

  /** `spawn`'s error: the operating system's error text behind a fixed prefix. */
  function SpawnError(osError: string): string {
    "Failed to spawn node process: " + osError
  }

  /** `spawn_with_retry`'s error once every attempt failed. */
  function ExhaustedError(maxRetries: nat, lastError: string): string {
    "Backend failed to start after " + DecimalString(maxRetries) + " attempts: " + lastError
  }

  /** What `spawn` returns for one outcome of the operating system. */
  function SpawnResult(outcome: SpawnOutcome): Result<()> {
    match outcome
    case Started(_) => Ok(())
    case SpawnFailed(e) => Err(SpawnError(e))
  }

  // ---------------------------------------------------------------------
  // The retry policy, as a specification
  // ---------------------------------------------------------------------

  /** The number of spawn calls the loop makes when every one fails: the
      loop stops once the failure count reaches `max_retries`, and one call
      always happens, so this is max(1, `max_retries`). */
  function AttemptBudget(maxRetries: nat): nat {
    if maxRetries == 0 then 1 else maxRetries
  }

  /** 2^k */
  function Pow2(k: nat): (r: nat)
    ensures r >= 1
  {
    if k == 0 then 1 else 2 * Pow2(k - 1)
  }

  /** The delays, in seconds, slept after the first `n` failed attempts:
      1, 2, 4, … */
  function Backoff(n: nat): seq<nat> {
    seq(n, i requires 0 <= i < n => Pow2(i))
  }

  /** The first attempt in [from, limit) whose spawn succeeds, if any. */
  function FirstStart(oracle: nat -> SpawnOutcome, from: nat, limit: nat): (r: Option<nat>)
    ensures r.Some? ==> (from <= r.value < limit && oracle(r.value).Started?
                         && forall j | from <= j < r.value :: oracle(j).SpawnFailed?)
    ensures r.None? ==> forall j | from <= j < limit :: oracle(j).SpawnFailed?
    decreases limit - from
  {
    if from >= limit then None
    else if oracle(from).Started? then Some(from)
    else FirstStart(oracle, from + 1, limit)
  }

  /** What one run of `spawn_with_retry` does: how many times it spawns, the
      delays it sleeps, and what it returns. */
  datatype RetryRun = RetryRun(attempts: nat, delays: seq<nat>, result: Result<()>)

  /** Reference behaviour of `spawn_with_retry` over the spawn outcomes
      `oracle(0)`, `oracle(1)`, …: stop at the first start, otherwise give up
      after the attempt budget with the last spawn error. */
  function RetrySpec(maxRetries: nat, oracle: nat -> SpawnOutcome): RetryRun {
    var budget := AttemptBudget(maxRetries);
    match FirstStart(oracle, 0, budget)
    case Some(k) => RetryRun(k + 1, Backoff(k), Ok(()))
    case None => RetryRun(budget, Backoff(budget - 1),
                          Err(ExhaustedError(maxRetries, SpawnError(oracle(budget - 1).osError))))
  }

  /** Spawn is called at least once and at most `max_retries` times (once
      when `max_retries` is 0), and one delay separates consecutive attempts. */
  lemma RetryAttemptBounds(maxRetries: nat, oracle: nat -> SpawnOutcome)
    ensures var run := RetrySpec(maxRetries, oracle);
      1 <= run.attempts <= AttemptBudget(maxRetries)
      && (maxRetries > 0 ==> run.attempts <= maxRetries)
      && |run.delays| == run.attempts - 1
  {
  }

  /** The run succeeds exactly when some attempt within the budget starts
      the process, and then it is the first such attempt that ends the run. */
  lemma RetryStopsAtFirstStart(maxRetries: nat, oracle: nat -> SpawnOutcome)
    ensures var run := RetrySpec(maxRetries, oracle);
      run.result.Ok? <==> exists i | 0 <= i < AttemptBudget(maxRetries) :: oracle(i).Started?
    ensures var run := RetrySpec(maxRetries, oracle);
      run.result.Ok? ==> (oracle(run.attempts - 1).Started?
                          && forall j | 0 <= j < run.attempts - 1 :: oracle(j).SpawnFailed?)
  {
    var budget := AttemptBudget(maxRetries);
    if exists i | 0 <= i < budget :: oracle(i).Started? {
      var i :| 0 <= i < budget && oracle(i).Started?;
      assert FirstStart(oracle, 0, budget).Some?;
    }
  }

  /** When every attempt within the budget fails, the error names
      `max_retries` and carries the last spawn error. */
  lemma RetryAllFail(maxRetries: nat, oracle: nat -> SpawnOutcome)
    requires forall i | 0 <= i < AttemptBudget(maxRetries) :: oracle(i).SpawnFailed?
    ensures var run := RetrySpec(maxRetries, oracle);
      run.attempts == AttemptBudget(maxRetries)
      && run.result == Err("Backend failed to start after " + DecimalString(maxRetries) + " attempts: "
                           + "Failed to spawn node process: " + oracle(AttemptBudget(maxRetries) - 1).osError)
  {
  }

  /** The k-th delay (counting from 0) is 2^k seconds; no delay follows the
      last attempt. With `max_retries` = 3 and three failures the delays are
      exactly 1 s and 2 s, and the error names 3 attempts. */
  lemma DefaultRetryDelays(oracle: nat -> SpawnOutcome)
    requires forall i | 0 <= i < DefaultMaxRetries :: oracle(i).SpawnFailed?
    ensures var run := RetrySpec(DefaultMaxRetries, oracle);
      run.attempts == 3 && run.delays == [1, 2]
      && run.result == Err("Backend failed to start after " + "3" + " attempts: "
                           + "Failed to spawn node process: " + oracle(2).osError)
  {
    RetryAllFail(DefaultMaxRetries, oracle);
    assert Backoff(2) == [Pow2(0), Pow2(1)];
    assert DecimalString(3) == "3";
  }

  // ---------------------------------------------------------------------
  // The last lines of the log
  // ---------------------------------------------------------------------

  /** The index of the first `c` in `s`. */
  function IndexOf(s: string, c: char): (i: nat)
    requires c in s
    ensures i < |s| && s[i] == c && c !in s[..i]
    decreases |s|
  {
    if s[0] == c then 0
    else
      var j := IndexOf(s[1..], c);
      assert s[1..][..j] == s[1..j + 1];
      assert s[..j + 1] == [s[0]] + s[1..j + 1];
      j + 1
  }

  /** Drops one `\r` ending a line that a `\n` terminated. */
  function StripCarriageReturn(line: string): string {
    if |line| > 0 && line[|line| - 1] == '\r' then line[..|line| - 1] else line
  }

  /** `str::lines`: the text split at each `\n` (a `\r\n` counts as one line
      end), with no empty line after a final line end; a last line without
      a line end is kept as it is, `\r` included. */
  function Lines(text: string): seq<string>
    decreases |text|
  {
    if |text| == 0 then []
    else if '\n' !in text then [text]
    else
      var i := IndexOf(text, '\n');
      [StripCarriageReturn(text[..i])] + Lines(text[i + 1..])
  }

  /** No line holds a newline. */
  lemma {:induction false} LinesHaveNoNewline(text: string)
    ensures forall k | 0 <= k < |Lines(text)| :: '\n' !in Lines(text)[k]
    decreases |text|
  {
    if |text| > 0 && '\n' in text {
      var i := IndexOf(text, '\n');
      LinesHaveNoNewline(text[i + 1..]);
      var first := text[..i];
      assert StripCarriageReturn(first) <= first;
      assert Lines(text) == [StripCarriageReturn(first)] + Lines(text[i + 1..]);
    }
  }

  function Reverse<T>(s: seq<T>): (r: seq<T>)
    ensures |r| == |s|
    decreases |s|
  {
    if |s| == 0 then [] else Reverse(s[1..]) + [s[0]]
  }

  lemma {:induction false} ReverseAt<T>(s: seq<T>, k: nat)
    requires k < |s|
    ensures Reverse(s)[k] == s[|s| - 1 - k]
    decreases |s|
  {
    if k < |s| - 1 {
      ReverseAt(s[1..], k);
    }
  }

  /** `Iterator::take(n)` */
  function Take<T>(s: seq<T>, n: nat): seq<T> {
    if n < |s| then s[..n] else s
  }

  /** `lines.rev().take(n).rev()`, as written. */
  function LastLines(lines: seq<string>, n: nat): seq<string> {
    Reverse(Take(Reverse(lines), n))
  }

  function Min(a: nat, b: nat): nat {
    if a < b then a else b
  }

  /** Taking from the reversed lines and reversing back keeps the last
      min(n, L) lines in their original order. */
  lemma LastLinesIsSuffix(lines: seq<string>, n: nat)
    ensures LastLines(lines, n) == lines[|lines| - Min(n, |lines|)..]
  {
    var m := Min(n, |lines|);
    var taken := Take(Reverse(lines), n);
    assert |taken| == m;
    forall k | 0 <= k < m ensures LastLines(lines, n)[k] == lines[|lines| - m + k] {
      ReverseAt(taken, k);
      ReverseAt(lines, m - 1 - k);
      assert taken[m - 1 - k] == Reverse(lines)[m - 1 - k];
    }
  }

  /** `read_last_log_lines(n)` over the log file's text; `None` is a file that
      cannot be read, which `unwrap_or_default` turns into the empty text. */
  function ReadLastLogLines(logText: Option<string>, n: nat): seq<string> {
    var text := if logText.Some? then logText.value else "";
    LastLines(Lines(text), n)
  }

  /** The result is the last min(n, L) lines of the log, L its line count, in
      file order; it is empty when n is 0 or the log cannot be read; no
      returned line holds a newline. */
  lemma ReadLastLogLinesSpec(logText: Option<string>, n: nat)
    ensures var lines := Lines(if logText.Some? then logText.value else "");
      ReadLastLogLines(logText, n) == lines[|lines| - Min(n, |lines|)..]
      && |ReadLastLogLines(logText, n)| == Min(n, |lines|)
    ensures n == 0 || logText.None? ==> ReadLastLogLines(logText, n) == []
    ensures forall k | 0 <= k < |ReadLastLogLines(logText, n)| :: '\n' !in ReadLastLogLines(logText, n)[k]
  {
    var text := if logText.Some? then logText.value else "";
    var lines := Lines(text);
    LastLinesIsSuffix(lines, n);
    LinesHaveNoNewline(text);
    var r := ReadLastLogLines(logText, n);
    forall k | 0 <= k < |r| ensures '\n' !in r[k] {
      assert r[k] == lines[|lines| - Min(n, |lines|) + k];
    }
  }

  // ---------------------------------------------------------------------
  // The manager
  // ---------------------------------------------------------------------

  class SidecarManager {
    /** The slot holding the running child, if any. */
    var child: Option<Child>
    const logPath: string
    const projectRoot: string
    const maxRetries: nat := DefaultMaxRetries

    /** Every delay slept so far, in seconds. */
    ghost var sleeps: seq<nat>
    /** How many times `spawn` has asked the operating system for a process. */
    ghost var spawnCalls: nat
    /** Every child `shutdown` has taken out of the slot and killed, in order. */
    ghost var stopped: seq<Child>

    /** `SidecarManager::new`: no child yet and three attempts per start. The
        log path, which the source resolves from platform directories, is a
        parameter. */
    constructor (projectRoot: string, logPath: string)
      ensures child == None && maxRetries == 3
      ensures this.projectRoot == projectRoot && this.logPath == logPath
      ensures sleeps == [] && spawnCalls == 0 && stopped == []
    {
      this.projectRoot := projectRoot;
      this.logPath := logPath;
      child := None;
      sleeps, spawnCalls, stopped := [], 0, [];
    }

    /** `spawn`: on success the new child is put in the slot; on failure the
        slot is left as it was and the operating system's error is returned. */
    method Spawn(outcome: SpawnOutcome) returns (r: Result<()>)
      modifies this
      ensures r == SpawnResult(outcome)
      ensures child == (if outcome.Started? then Some(outcome.child) else old(child))
      ensures spawnCalls == old(spawnCalls) + 1
      ensures sleeps == old(sleeps) && stopped == old(stopped)
    {
      spawnCalls := spawnCalls + 1;
      match outcome
      case SpawnFailed(e) =>
        r := Err(SpawnError(e));
      case Started(c) =>
        child := Some(c);
        r := Ok(());
    }

    /** `spawn_with_retry`: attempt i asks for `oracle(i)`. */
    method SpawnWithRetry(oracle: nat -> SpawnOutcome) returns (r: Result<()>)
      modifies this
      ensures r == RetrySpec(maxRetries, oracle).result
      ensures spawnCalls == old(spawnCalls) + RetrySpec(maxRetries, oracle).attempts
      ensures sleeps == old(sleeps) + RetrySpec(maxRetries, oracle).delays
      ensures child == (if r.Ok? then Some(oracle(RetrySpec(maxRetries, oracle).attempts - 1).child)
                        else old(child))
      ensures stopped == old(stopped)
    {
      var attempts: nat := 0;
      while true
        invariant attempts < maxRetries
        invariant forall j | 0 <= j < attempts :: oracle(j).SpawnFailed?
        invariant FirstStart(oracle, 0, AttemptBudget(maxRetries)) == FirstStart(oracle, attempts, AttemptBudget(maxRetries))
        invariant spawnCalls == old(spawnCalls) + attempts
        invariant sleeps == old(sleeps) + Backoff(attempts)
        invariant child == old(child) && stopped == old(stopped)
        decreases maxRetries - attempts
      {
        var spawned := Spawn(oracle(attempts));
        match spawned
        case Ok(_) =>
          return Ok(());
        case Err(e) =>
          attempts := attempts + 1;
          if attempts >= maxRetries {
            return Err(ExhaustedError(maxRetries, e));
          }
          var shift: nat := attempts - 1;
          assert shift < 64;
          var delay := Pow2(shift);
          assert Backoff(attempts) == Backoff(attempts - 1) + [delay];
          sleeps := sleeps + [delay];
      }
    }

    /** `is_running`: a child is in the slot and `try_wait` reports it has not
        exited. */
    method IsRunning(status: WaitStatus) returns (running: bool)
      ensures running <==> child.Some? && status == StillRunning
    {
      match child
      case None =>
        running := false;
      case Some(_) =>
        running := status == StillRunning;
    }

    /** `shutdown`: takes the child out of the slot and stops it; with an
        empty slot nothing happens. */
    method Shutdown()
      modifies this
      ensures child == None
      ensures stopped == old(stopped) + (if old(child).Some? then [old(child).value] else [])
      ensures sleeps == old(sleeps) && spawnCalls == old(spawnCalls)
    {
      match child
      case None =>
      case Some(c) =>
        child := None;
        stopped := stopped + [c];
    }
  }

  /** A second `shutdown` changes nothing, and afterwards `is_running` is
      false whatever `try_wait` would report. */
  method ShutdownTwice(m: SidecarManager, status: WaitStatus) returns (running: bool)
    modifies m
    ensures m.child == None && !running
    ensures m.stopped == old(m.stopped) + (if old(m.child).Some? then [old(m.child).value] else [])
  {
    m.Shutdown();
    ghost var afterFirst := m.stopped;
    m.Shutdown();
    assert m.stopped == afterFirst;
    running := m.IsRunning(status);
  }
}
