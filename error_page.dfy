/** The page the desktop shell shows when the Node backend fails to start:
    a four-entity HTML escaper, the log box built from the last backend log
    lines, and the fixed page template around the message and the log box. */
module ErrorPage {

  // ---------------------------------------------------------------------
  // Rust's `str::replace`
  // ---------------------------------------------------------------------

  /** `s.replace(pat, rep)`: scans `s` left to right and replaces every
      non-overlapping occurrence of `pat` by `rep`. */
  function Replace(s: string, pat: string, rep: string): string
    requires |pat| > 0
    decreases |s|
  {
    if |s| == 0 then []
    else if pat <= s then rep + Replace(s[|pat|..], pat, rep)
    else [s[0]] + Replace(s[1..], pat, rep)
  }

  lemma {:induction false} ReplaceCharAppend(a: string, b: string, c: char, rep: string)
    ensures Replace(a + b, [c], rep) == Replace(a, [c], rep) + Replace(b, [c], rep)
    decreases |a|
  {
    if |a| == 0 {
      assert a + b == b;
    } else {
      assert (a + b)[1..] == a[1..] + b;
      assert [c] <= a + b <==> [c] <= a;
      ReplaceCharAppend(a[1..], b, c, rep);
    }
  }

  lemma {:induction false} ReplaceCharAbsent(w: string, c: char, rep: string)
    requires c !in w
    ensures Replace(w, [c], rep) == w
    decreases |w|
  {
    if |w| > 0 {
      assert w[0] != c;
      ReplaceCharAbsent(w[1..], c, rep);
    }
  }

  /** A prefix `w` in which no character starts `pat` is copied unchanged. */
  lemma {:induction false} ReplaceSkip(w: string, rest: string, pat: string, rep: string)
    requires |pat| > 0
    requires forall i | 0 <= i < |w| :: w[i] != pat[0]
    ensures Replace(w + rest, pat, rep) == w + Replace(rest, pat, rep)
    decreases |w|
  {
    if |w| > 0 {
      assert (w + rest)[0] == w[0];
      assert (w + rest)[1..] == w[1..] + rest;
      ReplaceSkip(w[1..], rest, pat, rep);
    } else {
      assert w + rest == rest;
    }
  }

  // ---------------------------------------------------------------------
  // html_escape
  // ---------------------------------------------------------------------

  /** `html_escape`, as written: four chained replace calls, `&` first. */
  function HtmlEscape(s: string): string {
    Replace(Replace(Replace(Replace(s, "&", "&amp;"), "<", "&lt;"), ">", "&gt;"), "\"", "&quot;")
  }

  /** The four characters `html_escape` rewrites. */
  predicate IsSpecial(c: char) {
    c == '&' || c == '<' || c == '>' || c == '"'
  }

  /** The per-character escape: an entity for the four special characters,
      the character itself for every other one (so `'` is kept). */
  function EscapeChar(c: char): string {
    match c
    case '&' => "&amp;"
    case '<' => "&lt;"
    case '>' => "&gt;"
    case '"' => "&quot;"
    case _ => [c]
  }

  /** Reference definition: escape every character on its own. */
  function EscapePerChar(s: string): string
    decreases |s|
  {
    if |s| == 0 then [] else EscapeChar(s[0]) + EscapePerChar(s[1..])
  }

  /** The position (1 to 4) of a special character's replace call in the
      chain; 0 for a character no call rewrites. */
  function Rank(c: char): nat {
    match c
    case '&' => 1
    case '<' => 2
    case '>' => 3
    case '"' => 4
    case _ => 0
  }

  /** The character rewritten by the k-th replace call. */
  function Special(k: nat): char
    requires 1 <= k <= 4
  {
    if k == 1 then '&' else if k == 2 then '<' else if k == 3 then '>' else '"'
  }

  /** The text after the first k replace calls, for a single character. */
  function EscapeCharUpTo(k: nat, c: char): string {
    if 1 <= Rank(c) <= k then EscapeChar(c) else [c]
  }

  /** The text after the first k replace calls of the chain. */
  function EscapeUpTo(k: nat, s: string): string
    decreases |s|
  {
    if |s| == 0 then [] else EscapeCharUpTo(k, s[0]) + EscapeUpTo(k, s[1..])
  }

  lemma {:induction false} EscapeUpToZero(s: string)
    ensures EscapeUpTo(0, s) == s
    decreases |s|
  {
    if |s| > 0 {
      EscapeUpToZero(s[1..]);
    }
  }

  lemma {:induction false} EscapeUpToFour(s: string)
    ensures EscapeUpTo(4, s) == EscapePerChar(s)
    decreases |s|
  {
    if |s| > 0 {
      EscapeUpToFour(s[1..]);
    }
  }

  /** The k-th replace call of the chain turns stage k-1 into stage k: it
      only meets the k-th special character, because the entities produced
      by earlier calls contain none of `<`, `>`, `"`, and `&` is first. */
  lemma {:induction false} EscapeStep(k: nat, s: string)
    requires 1 <= k <= 4
    ensures Replace(EscapeUpTo(k - 1, s), [Special(k)], EscapeChar(Special(k))) == EscapeUpTo(k, s)
    decreases |s|
  {
    var c, rep := Special(k), EscapeChar(Special(k));
    if |s| > 0 {
      var x := s[0];
      ReplaceCharAppend(EscapeCharUpTo(k - 1, x), EscapeUpTo(k - 1, s[1..]), c, rep);
      EscapeStep(k, s[1..]);
      if x == c {
        assert EscapeCharUpTo(k - 1, x) == [c];
        assert Replace([c], [c], rep) == rep + Replace([], [c], rep);
      } else {
        assert c !in EscapeCharUpTo(k - 1, x);
        ReplaceCharAbsent(EscapeCharUpTo(k - 1, x), c, rep);
      }
    }
  }

  /** `html_escape` is the per-character map: `&` → `&amp;`, `<` → `&lt;`,
      `>` → `&gt;`, `"` → `&quot;`, every other character unchanged. */
  lemma HtmlEscapeIsPerChar(s: string)
    ensures HtmlEscape(s) == EscapePerChar(s)
  {
    EscapeUpToZero(s);
    EscapeStep(1, s);
    EscapeStep(2, s);
    EscapeStep(3, s);
    EscapeStep(4, s);
    EscapeUpToFour(s);
  }

  lemma {:induction false} EscapePerCharAppend(a: string, b: string)
    ensures EscapePerChar(a + b) == EscapePerChar(a) + EscapePerChar(b)
    decreases |a|
  {
    if |a| == 0 {
      assert a + b == b;
    } else {
      assert (a + b)[1..] == a[1..] + b;
      EscapePerCharAppend(a[1..], b);
    }
  }

  /** `html_escape` distributes over concatenation. */
  lemma HtmlEscapeAppend(a: string, b: string)
    ensures HtmlEscape(a + b) == HtmlEscape(a) + HtmlEscape(b)
  {
    HtmlEscapeIsPerChar(a + b);
    HtmlEscapeIsPerChar(a);
    HtmlEscapeIsPerChar(b);
    EscapePerCharAppend(a, b);
  }

  lemma {:induction false} EscapePerCharKeepsOut(s: string, c: char)
    requires c !in s
    requires c != '&' && c != 'a' && c != 'm' && c != 'p' && c != ';' && c != 'l' && c != 'g'
      && c != 't' && c != 'q' && c != 'u' && c != 'o'
    ensures c !in EscapePerChar(s)
    decreases |s|
  {
    if |s| > 0 {
      assert c !in EscapeChar(s[0]);
      EscapePerCharKeepsOut(s[1..], c);
    }
  }

  /** No `<`, `>` or `"` survives escaping. */
  lemma {:induction false} HtmlEscapeNoMarkup(s: string)
    ensures '<' !in HtmlEscape(s) && '>' !in HtmlEscape(s) && '"' !in HtmlEscape(s)
    decreases |s|
  {
    HtmlEscapeIsPerChar(s);
    if |s| > 0 {
      HtmlEscapeNoMarkup(s[1..]);
      HtmlEscapeIsPerChar(s[1..]);
      var e := EscapeChar(s[0]);
      assert '<' !in e && '>' !in e && '"' !in e;
    }
  }

  /** A character other than the entity letters that is absent from the
      input (a newline, for one) is absent from the output. */
  lemma HtmlEscapeKeepsOut(s: string, c: char)
    requires c !in s
    requires c != '&' && c != 'a' && c != 'm' && c != 'p' && c != ';' && c != 'l' && c != 'g'
      && c != 't' && c != 'q' && c != 'u' && c != 'o'
    ensures c !in HtmlEscape(s)
  {
    HtmlEscapeIsPerChar(s);
    EscapePerCharKeepsOut(s, c);
  }

  /** Number of occurrences of `c` in `s`. */
  function Count(s: string, c: char): nat
    decreases |s|
  {
    if |s| == 0 then 0 else (if s[0] == c then 1 else 0) + Count(s[1..], c)
  }

  lemma {:induction false} CountZero(s: string, c: char)
    ensures Count(s, c) == 0 <==> c !in s
    decreases |s|
  {
    if |s| > 0 {
      CountZero(s[1..], c);
      assert s == [s[0]] + s[1..];
    }
  }

  lemma {:induction false} EscapePerCharLength(s: string)
    ensures |EscapePerChar(s)| == |s| + 4 * Count(s, '&') + 3 * Count(s, '<') + 3 * Count(s, '>') + 5 * Count(s, '"')
    decreases |s|
  {
    if |s| > 0 {
      EscapePerCharLength(s[1..]);
      assert |EscapeChar(s[0])| == 1 + (if s[0] == '&' then 4 else 0) + (if s[0] == '<' then 3 else 0)
        + (if s[0] == '>' then 3 else 0) + (if s[0] == '"' then 5 else 0);
    }
  }

  /** Exact output length: each `&` adds 4 characters, each `<` and `>` 3,
      each `"` 5. */
  lemma HtmlEscapeLength(s: string)
    ensures |HtmlEscape(s)| == |s| + 4 * Count(s, '&') + 3 * Count(s, '<') + 3 * Count(s, '>') + 5 * Count(s, '"')
  {
    HtmlEscapeIsPerChar(s);
    EscapePerCharLength(s);
  }

  /** Escaping never shortens, and keeps the length exactly when none of
      the four special characters occurs. */
  lemma HtmlEscapeLengthBounds(s: string)
    ensures |HtmlEscape(s)| >= |s|
    ensures |HtmlEscape(s)| == |s| <==> forall i | 0 <= i < |s| :: !IsSpecial(s[i])
  {
    HtmlEscapeLength(s);
    CountZero(s, '&');
    CountZero(s, '<');
    CountZero(s, '>');
    CountZero(s, '"');
  }

  lemma {:induction false} EscapePerCharFixed(s: string)
    requires forall i | 0 <= i < |s| :: !IsSpecial(s[i])
    ensures EscapePerChar(s) == s
    decreases |s|
  {
    if |s| > 0 {
      assert !IsSpecial(s[0]);
      EscapePerCharFixed(s[1..]);
    }
  }

  /** A string is its own escape exactly when it holds none of `&`, `<`,
      `>`, `"`; in particular `'` is never escaped. */
  lemma HtmlEscapeFixedPoint(s: string)
    ensures HtmlEscape(s) == s <==> forall i | 0 <= i < |s| :: !IsSpecial(s[i])
  {
    HtmlEscapeLengthBounds(s);
    if forall i | 0 <= i < |s| :: !IsSpecial(s[i]) {
      HtmlEscapeIsPerChar(s);
      EscapePerCharFixed(s);
    }
  }

  lemma ApostropheNotEscaped()
    ensures HtmlEscape("it's") == "it's"
  {
    HtmlEscapeFixedPoint("it's");
  }

  // ---------------------------------------------------------------------
  // Decoding: the escape is injective
  // ---------------------------------------------------------------------

  /** Decodes `&quot;`, `&gt;`, `&lt;` and then `&amp;` — the inverse
      chain, in the opposite order to the escape. */
  function Unescape(s: string): string {
    Replace(Replace(Replace(Replace(s, "&quot;", "\""), "&gt;", ">"), "&lt;", "<"), "&amp;", "&")
  }

  lemma ReplaceAtMatch(pat: string, rest: string, rep: string)
    requires |pat| > 0
    ensures Replace(pat + rest, pat, rep) == rep + Replace(rest, pat, rep)
  {
    assert pat <= pat + rest;
    assert (pat + rest)[|pat|..] == rest;
  }

  /** An entity other than `pat` is copied unchanged: it differs from `pat`
      in its second character and holds no other `&`. */
  lemma ReplaceSkipEntity(enc: string, rest: string, pat: string, rep: string)
    requires |pat| >= 2 && |enc| >= 2 && enc[0] == '&' == pat[0] && enc[1] != pat[1]
    requires forall i | 1 <= i < |enc| :: enc[i] != '&'
    ensures Replace(enc + rest, pat, rep) == enc + Replace(rest, pat, rep)
  {
    assert (enc + rest)[1] == enc[1];
    assert !(pat <= enc + rest);
    assert (enc + rest)[1..] == enc[1..] + rest;
    forall i | 0 <= i < |enc[1..]| ensures enc[1..][i] != pat[0] {
      assert enc[1..][i] == enc[i + 1];
    }
    ReplaceSkip(enc[1..], rest, pat, rep);
    assert [enc[0]] + enc[1..] == enc;
  }

  /** Undoing the k-th replace call on the escape of one character. */
  lemma UnescapeCharStep(k: nat, x: char, rest: string)
    requires 1 <= k <= 4
    ensures Replace(EscapeCharUpTo(k, x) + rest, EscapeChar(Special(k)), [Special(k)])
         == EscapeCharUpTo(k - 1, x) + Replace(rest, EscapeChar(Special(k)), [Special(k)])
  {
    var pat := EscapeChar(Special(k));
    var enc := EscapeCharUpTo(k, x);
    if x == Special(k) {
      assert enc == pat;
      ReplaceAtMatch(pat, rest, [x]);
    } else if 1 <= Rank(x) < k {
      assert enc == EscapeChar(x);
      ReplaceSkipEntity(enc, rest, pat, [Special(k)]);
    } else {
      assert enc == [x] && x != '&';
      ReplaceSkip(enc, rest, pat, [Special(k)]);
    }
  }

  /** Undoing the k-th replace call turns stage k back into stage k-1. */
  lemma {:induction false} UnescapeStep(k: nat, s: string)
    requires 1 <= k <= 4
    ensures Replace(EscapeUpTo(k, s), EscapeChar(Special(k)), [Special(k)]) == EscapeUpTo(k - 1, s)
    decreases |s|
  {
    if |s| > 0 {
      UnescapeCharStep(k, s[0], EscapeUpTo(k, s[1..]));
      UnescapeStep(k, s[1..]);
    }
  }

  /** Decoding recovers the input of `html_escape`. */
  lemma UnescapeHtmlEscape(s: string)
    ensures Unescape(HtmlEscape(s)) == s
  {
    HtmlEscapeIsPerChar(s);
    EscapeUpToFour(s);
    UnescapeStep(4, s);
    UnescapeStep(3, s);
    UnescapeStep(2, s);
    UnescapeStep(1, s);
    EscapeUpToZero(s);
  }

  /** Two different strings never escape to the same text. */
  lemma HtmlEscapeInjective(a: string, b: string)
    ensures HtmlEscape(a) == HtmlEscape(b) ==> a == b
  {
    UnescapeHtmlEscape(a);
    UnescapeHtmlEscape(b);
  }

  // ---------------------------------------------------------------------
  // The log box
  // ---------------------------------------------------------------------

  /** `[String]::join(sep)` */
  function Join(parts: seq<string>, sep: string): string
    decreases |parts|
  {
    if |parts| == 0 then ""
    else if |parts| == 1 then parts[0]
    else parts[0] + sep + Join(parts[1..], sep)
  }

  /** `str::split(sep)`: always at least one piece. */
  function Split(s: string, sep: char): (r: seq<string>)
    ensures |r| >= 1
    decreases |s|
  {
    if |s| == 0 then [""]
    else
      var rest := Split(s[1..], sep);
      if s[0] == sep then [""] + rest else [[s[0]] + rest[0]] + rest[1..]
  }

  lemma {:induction false} SplitNoSeparator(a: string, sep: char)
    requires sep !in a
    ensures Split(a, sep) == [a]
    decreases |a|
  {
    if |a| > 0 {
      SplitNoSeparator(a[1..], sep);
      assert [a[0]] + a[1..] == a;
    }
  }

  lemma {:induction false} SplitAtSeparator(a: string, b: string, sep: char)
    requires sep !in a
    ensures Split(a + [sep] + b, sep) == [a] + Split(b, sep)
    decreases |a|
  {
    if |a| == 0 {
      assert a + [sep] + b == [sep] + b;
      assert ([sep] + b)[1..] == b;
    } else {
      assert (a + [sep] + b)[1..] == a[1..] + [sep] + b;
      SplitAtSeparator(a[1..], b, sep);
      assert [a[0]] + a[1..] == a;
    }
  }

  /** Splitting a join on its separator gives back the parts, when no part
      holds the separator. */
  lemma {:induction false} SplitJoin(parts: seq<string>, sep: char)
    requires |parts| >= 1
    requires forall i | 0 <= i < |parts| :: sep !in parts[i]
    ensures Split(Join(parts, [sep]), sep) == parts
    decreases |parts|
  {
    if |parts| == 1 {
      SplitNoSeparator(parts[0], sep);
    } else {
      SplitJoin(parts[1..], sep);
      SplitAtSeparator(parts[0], Join(parts[1..], [sep]), sep);
      assert [parts[0]] + parts[1..] == parts;
    }
  }

  /** `log_lines.iter().map(|l| html_escape(l))`: each line escaped on its own, in order. */
  function EscapeEach(lines: seq<string>): seq<string> {
    seq(|lines|, i requires 0 <= i < |lines| => HtmlEscape(lines[i]))
  }

  /** Shown in the log box when the escaped, joined log text is empty. */
  const NoLogOutput: string := "No log output available."

  /** The content of the log box: the escaped lines joined by newlines, or
      the placeholder when that text is empty. */
  function LogBox(logLines: seq<string>): string {
    var escapedLogs := Join(EscapeEach(logLines), "\n");
    if |escapedLogs| == 0 then NoLogOutput else escapedLogs
  }

  lemma HtmlEscapeEmpty(s: string)
    ensures HtmlEscape(s) == "" <==> s == ""
  {
    HtmlEscapeLengthBounds(s);
    assert HtmlEscape("") == "";
  }

  /** The escaped, joined log text is empty exactly when there is no log
      line or a single empty one, and then the log box holds the placeholder. */
  lemma LogBoxFallback(logLines: seq<string>)
    ensures |Join(EscapeEach(logLines), "\n")| == 0 <==> logLines == [] || logLines == [""]
    ensures logLines == [] || logLines == [""] ==> LogBox(logLines) == NoLogOutput
  {
    var escaped := EscapeEach(logLines);
    if |logLines| == 1 {
      HtmlEscapeEmpty(logLines[0]);
      assert logLines == [""] <==> logLines[0] == "";
    }
    if |logLines| >= 2 {
      assert Join(escaped, "\n") == escaped[0] + "\n" + Join(escaped[1..], "\n");
    }
  }

  /** Otherwise the log box is each line escaped on its own, in the original
      order, joined by newlines: splitting it at newlines gives exactly the
      escaped lines back (the lines themselves hold no newline, as the lines
      of a file never do). */
  lemma LogBoxLines(logLines: seq<string>)
    requires forall i | 0 <= i < |logLines| :: '\n' !in logLines[i]
    requires logLines != [] && logLines != [""]
    ensures Split(LogBox(logLines), '\n') == EscapeEach(logLines)
    ensures |Split(LogBox(logLines), '\n')| == |logLines|
  {
    LogBoxFallback(logLines);
    var escaped := EscapeEach(logLines);
    forall i | 0 <= i < |escaped| ensures '\n' !in escaped[i] {
      HtmlEscapeKeepsOut(logLines[i], '\n');
    }
    SplitJoin(escaped, '\n');
  }

  /** The log box holds no `<`, so it cannot open or close a tag. */
  lemma LogBoxNoTag(logLines: seq<string>)
    ensures '<' !in LogBox(logLines)
  {
    var escaped := EscapeEach(logLines);
    forall i | 0 <= i < |escaped| ensures '<' !in escaped[i] {
      HtmlEscapeNoMarkup(logLines[i]);
    }
    JoinKeepsOut(escaped, "\n", '<');
  }

  lemma {:induction false} JoinKeepsOut(parts: seq<string>, sep: string, c: char)
    requires c !in sep
    requires forall i | 0 <= i < |parts| :: c !in parts[i]
    ensures c !in Join(parts, sep)
    decreases |parts|
  {
    if |parts| >= 2 {
      JoinKeepsOut(parts[1..], sep, c);
    }
  }

  // ---------------------------------------------------------------------
  // generate_error_html
  // ---------------------------------------------------------------------

  /** The fixed template text before the message paragraph, line by line:
      the document head with its style sheet and the page heading. */
  const PageStartLines: seq<string> := [
    "<!DOCTYPE html>",
    "<html>",
    "<head>",
    "<meta charset=\"utf-8\">",
    "<style>",
    "  * { margin: 0; padding: 0; box-sizing: border-box; }",
    "  body {",
    "    background: #1a1a1a;",
    "    color: #e0e0e0;",
    "    font-family: -apple-system, BlinkMacSystemFont, \"Segoe UI\", sans-serif;",
    "    display: flex;",
    "    align-items: center;",
    "    justify-content: center;",
    "    min-height: 100vh;",
    "    padding: 2rem;",
    "  }",
    "  .container {",
    "    max-width: 640px;",
    "    width: 100%;",
    "  }",
    "  h1 {",
    "    color: #ff6b6b;",
    "    font-size: 1.4rem;",
    "    margin-bottom: 1rem;",
    "  }",
    "  .message {",
    "    color: #aaa;",
    "    margin-bottom: 1.5rem;",
    "    line-height: 1.5;",
    "  }",
    "  .log-box {",
    "    background: #111;",
    "    border: 1px solid #333;",
    "    border-radius: 6px;",
    "    padding: 1rem;",
    "    font-family: \"SF Mono\", \"Fira Code\", monospace;",
    "    font-size: 0.75rem;",
    "    line-height: 1.6;",
    "    white-space: pre-wrap;",
    "    word-break: break-all;",
    "    max-height: 300px;",
    "    overflow-y: auto;",
    "    margin-bottom: 1.5rem;",
    "    color: #999;",
    "  }",
    "  button {",
    "    background: #333;",
    "    color: #e0e0e0;",
    "    border: 1px solid #555;",
    "    border-radius: 6px;",
    "    padding: 0.6rem 1.5rem;",
    "    font-size: 0.9rem;",
    "    cursor: pointer;",
    "    transition: background 0.15s;",
    "  }",
    "  button:hover {",
    "    background: #444;",
    "  }",
    "</style>",
    "</head>",
    "<body>",
    "  <div class=\"container\">",
    "    <h1>Backend failed to start</h1>"
  ]

  /** The fixed template text up to the opening tag of the message paragraph. */
  const PageStart: string := Join(PageStartLines, "\n") + "\n    "

  const MessageOpen: string := "<p class=\"message\">"

  /** Everything before the message. */
  const PageHead: string := PageStart + MessageOpen

  /** Between the message and the log box. */
  const PageMiddle: string := "</p>\n    <div class=\"log-box\">"

  /** After the log box: the retry button and the closing tags. */
  const PageTail: string := "</div>" + Join(PageTailLines, "\n")

  const PageTailLines: seq<string> := [
    "",
    "    <button onclick=\"window.__TAURI__?.invoke('restart_backend')\">",
    "      Retry",
    "    </button>",
    "  </div>",
    "</body>",
    "</html>"
  ]

  /** `generate_error_html(message, log_lines)` */
  function GenerateErrorHtml(message: string, logLines: seq<string>): string {
    PageHead + HtmlEscape(message) + PageMiddle + LogBox(logLines) + PageTail
  }

  /** The longest prefix of `s` that holds no `<`: the text a browser reads
      before the next tag. */
  function TextBeforeTag(s: string): (r: string)
    ensures r <= s && '<' !in r
    ensures |r| < |s| ==> s[|r|] == '<'
    decreases |s|
  {
    if |s| == 0 || s[0] == '<' then [] else [s[0]] + TextBeforeTag(s[1..])
  }

  lemma {:induction false} TextBeforeTagOf(a: string, b: string)
    requires '<' !in a
    requires |b| > 0 && b[0] == '<'
    ensures TextBeforeTag(a + b) == a
    decreases |a|
  {
    if |a| == 0 {
      assert a + b == b;
    } else {
      assert (a + b)[0] == a[0];
      assert (a + b)[1..] == a[1..] + b;
      TextBeforeTagOf(a[1..], b);
      assert [a[0]] + a[1..] == a;
    }
  }

  /** The text of a page laid out as head, message, middle, log box, tail. */
  lemma Layout(head: string, em: string, middle: string, box: string, tail: string)
    requires '<' !in em && '<' !in box
    requires |middle| > 0 && middle[0] == '<' && |tail| > 0 && tail[0] == '<'
    ensures var page := head + em + middle + box + tail;
      page[..|head|] == head
      && TextBeforeTag(page[|head|..]) == em
      && TextBeforeTag(page[|head| + |em| + |middle|..]) == box
  {
    var page := head + em + middle + box + tail;
    assert page[|head|..] == em + (middle + box + tail);
    TextBeforeTagOf(em, middle + box + tail);
    assert page[|head| + |em| + |middle|..] == box + tail;
    TextBeforeTagOf(box, tail);
  }

  /** The text after the message and after the log box opens a tag. */
  lemma TemplateTagsFollow()
    ensures |PageMiddle| > 0 && PageMiddle[0] == '<' && |PageTail| > 0 && PageTail[0] == '<'
  {
    assert PageTail == "</div>" + Join(PageTailLines, "\n");
  }

  /** The message reaches the page only escaped, as the whole text of the
      `.message` paragraph (nothing in it can close the paragraph), and the
      log box text follows in the `.log-box` division; decoding the
      paragraph gives the message back. */
  lemma ErrorPageLayout(message: string, logLines: seq<string>)
    ensures var page := GenerateErrorHtml(message, logLines);
      page[..|PageHead|] == PageHead
      && TextBeforeTag(page[|PageHead|..]) == HtmlEscape(message)
      && Unescape(TextBeforeTag(page[|PageHead|..])) == message
      && TextBeforeTag(page[|PageHead| + |HtmlEscape(message)| + |PageMiddle|..]) == LogBox(logLines)
  {
    HtmlEscapeNoMarkup(message);
    LogBoxNoTag(logLines);
    UnescapeHtmlEscape(message);
    TemplateTagsFollow();
    Layout(PageHead, HtmlEscape(message), PageMiddle, LogBox(logLines), PageTail);
  }
}
