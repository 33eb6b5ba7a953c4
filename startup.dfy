/** What the shell puts on screen when the backend does not come up: the
    error page around the last 20 lines of the backend log. */
module Startup {
  import ErrorPage
  import Sidecar

  /** How many log lines the error page shows. */
  const ShownLogLines: nat := 20

  /** The error page for a failed start: the failure message and the last
      lines of the log, read from the log file's text (`None` when the file
      cannot be read). */
  function StartupErrorPage(message: string, logText: Sidecar.Option<string>): string {
    ErrorPage.GenerateErrorHtml(message, Sidecar.ReadLastLogLines(logText, ShownLogLines))
  }

  /** The log box of that page shows at most 20 lines: when the log has any
      non-empty tail, splitting the box at newlines gives the last
      min(20, L) lines of the log, each escaped, in file order; otherwise
      it shows the placeholder. */
  lemma StartupLogBox(logText: Sidecar.Option<string>)
    ensures var tail := Sidecar.ReadLastLogLines(logText, ShownLogLines);
      |tail| <= ShownLogLines
      && (tail == [] || tail == [""] ==> ErrorPage.LogBox(tail) == ErrorPage.NoLogOutput)
      && (tail != [] && tail != [""] ==>
            ErrorPage.Split(ErrorPage.LogBox(tail), '\n') == ErrorPage.EscapeEach(tail))
  {
    var tail := Sidecar.ReadLastLogLines(logText, ShownLogLines);
    Sidecar.ReadLastLogLinesSpec(logText, ShownLogLines);
    ErrorPage.LogBoxFallback(tail);
    if tail != [] && tail != [""] {
      ErrorPage.LogBoxLines(tail);
    }
  }

  /** On that page the failure message is the whole, escaped text of the
      `.message` paragraph and decodes back to the message, and the
      `.log-box` text is the log box of the last 20 lines of the log. */
  lemma StartupErrorPageLayout(message: string, logText: Sidecar.Option<string>)
    ensures var page := StartupErrorPage(message, logText);
      var tail := Sidecar.ReadLastLogLines(logText, ShownLogLines);
      page[..|ErrorPage.PageHead|] == ErrorPage.PageHead
      && ErrorPage.TextBeforeTag(page[|ErrorPage.PageHead|..]) == ErrorPage.HtmlEscape(message)
      && ErrorPage.Unescape(ErrorPage.TextBeforeTag(page[|ErrorPage.PageHead|..])) == message
      && ErrorPage.TextBeforeTag(page[|ErrorPage.PageHead| + |ErrorPage.HtmlEscape(message)| + |ErrorPage.PageMiddle|..])
         == ErrorPage.LogBox(tail)
  {
    ErrorPage.ErrorPageLayout(message, Sidecar.ReadLastLogLines(logText, ShownLogLines));
  }
}
