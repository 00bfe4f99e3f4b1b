/** The error dialog of OS.js (src/client/javascript/dialogs/error.js): the
    trace its constructor derives from an exception, the layout and show/hide
    decisions that depend on it, and the bug-report URL its button opens. */
module ErrorDialog {
  import opened JsStrings
  import opened UriEncoding

  // ---------------------------------------------------------------------------
  // Inputs
  // ---------------------------------------------------------------------------

  /** `args.exception`: any of its fields may be missing. `hasOwnKeys` is
      `Object.keys(exception).length > 0`; a native `Error`, whose fields are
      not enumerable own properties, can have fields and still no own keys. */
  datatype ErrorRecord = ErrorRecord(
    stack: Option<string>,
    name: Option<string>,
    fileName: Option<string>,
    lineNumber: Option<int>,
    message: Option<string>,
    extMessage: Option<string>,
    hasOwnKeys: bool)

  /** The `{}` that stands in for a missing exception. */
  const EmptyRecord := ErrorRecord(None, None, None, None, None, None, false)

  /** The dialog's `args`. `exception == None` is a missing or falsy exception;
      `bugreport` is the truthiness of `args.bugreport`. */
  datatype DialogArgs = DialogArgs(
    message: Option<string>,
    error: Option<string>,
    exception: Option<ErrorRecord>,
    bugreport: bool)

  /** The configuration values the bug-report button reads. */
  datatype ReportConfig = ReportConfig(
    issue: bool,       // truthiness of BugReporting.options.issue
    title: string,     // BugReporting.options.title
    message: string,   // BugReporting.options.message, holding %VERSION%
    version: string,   // Version
    url: string)       // BugReporting.url, holding %TITLE% and %BODY%

  // ---------------------------------------------------------------------------
  // The trace
  // ---------------------------------------------------------------------------

  /** `"" + lineNumber` for an integral Number; "undefined" when missing. */
  function RenderNumber(v: Option<int>): (r: string)
    ensures r == "undefined" <==> v.None?
    ensures v.Some? && v.value >= 0 ==> forall i :: 0 <= i < |r| ==> IsDigit(r[i])
  {
    match v
    case Some(n) => IntToDecimal(n)
    case None => "undefined"
  }

  /** The rendered line number denotes the line number: its digits for a
      non-negative one, its digits after `-` for a negative one. */
  lemma RenderNumberValue(v: Option<int>)
    ensures v.Some? && v.value >= 0 ==> DecimalValue(RenderNumber(v)) == v.value
    ensures v.Some? && v.value < 0 ==> DecimalValue(RenderNumber(v)[1..]) == -v.value
  {
    if v.Some? {
      IntToDecimalValue(v.value);
    }
  }

  /** The lines of the trace built from the fields when there is no stack. */
  function FieldLines(e: ErrorRecord): seq<string> {
    [ Render(e.name),
      "Filename: " + Render(e.fileName),
      "Line: " + RenderNumber(e.lineNumber),
      "Message: " + Render(e.message) ]
    + (if Truthy(e.extMessage) then [e.extMessage.value] else [])
  }

  /** The input carries diagnostic detail: a non-empty stack or an own key. */
  predicate CarriesDetail(exception: Option<ErrorRecord>) {
    exception.Some? && (Truthy(exception.value.stack) || exception.value.hasOwnKeys)
  }

  /** The dialog's `traceMessage`: the stack if there is one, otherwise the
      field lines if the record has an own key, otherwise empty. It is
      non-empty exactly when the input carries detail. */
  function TraceMessage(exception: Option<ErrorRecord>): (r: string)
    ensures r != "" <==> CarriesDetail(exception)
  {
    var e := if exception.Some? then exception.value else EmptyRecord;
    if Truthy(e.stack) then
      e.stack.value
    else if e.hasOwnKeys then
      JoinLength(FieldLines(e), "\n");
      Join(FieldLines(e), "\n")
    else
      ""
  }

  /** The trace built from the fields, grouped as the constructor's `+=`
      steps build it. */
  function FieldTrace(n: string, f: string, l: string, m: string, ext: Option<string>): string {
    n + ("\nFilename: " + f) + ("\nLine: " + l) + ("\nMessage: " + m)
    + (if Truthy(ext) then "\n" + ext.value else "")
  }

  /** The constructor's computation of `error`, one `+=` at a time. The
      right operand of the `Filename` step is `('\nFilename: ' + fileName) || '<unknown>'`,
      whose left side is never empty, so `<unknown>` is never chosen. */
  method BuildTrace(argsException: Option<ErrorRecord>) returns (error: string)
    ensures error == TraceMessage(argsException)
  {
    var exception := if argsException.Some? then argsException.value else EmptyRecord;
    error := "";
    if Truthy(exception.stack) {
      error := exception.stack.value;
    } else {
      if exception.hasOwnKeys {
        var fileLine := "\nFilename: " + Render(exception.fileName);
        assert fileLine[0] == '\n';
        error := Render(exception.name);
        error := error + Or(fileLine, "<unknown>");
        error := error + ("\nLine: " + RenderNumber(exception.lineNumber));
        error := error + ("\nMessage: " + Render(exception.message));
        if Truthy(exception.extMessage) {
          error := error + ("\n" + exception.extMessage.value);
        } else {
          assert error + "" == error;
        }
        TraceFromFields(exception);
      }
    }
  }

  /** A non-empty stack is the trace verbatim, whatever else the record holds. */
  lemma TraceFromStack(e: ErrorRecord)
    requires Truthy(e.stack)
    ensures TraceMessage(Some(e)) == e.stack.value
  {
  }

  /** Without a stack, a record with an own key gives the field lines: the
      name, then `Filename: `, `Line: ` and `Message: ` lines with each missing
      field reading "undefined", then the extra message only when it is
      non-empty; the file name is never replaced by `<unknown>`. */
  lemma {:induction false} TraceFromFields(e: ErrorRecord)
    requires !Truthy(e.stack) && e.hasOwnKeys
    ensures TraceMessage(Some(e))
         == FieldTrace(Render(e.name), Render(e.fileName), RenderNumber(e.lineNumber), Render(e.message), e.extMessage)
  {
    var n, f, l, m := Render(e.name), Render(e.fileName), RenderNumber(e.lineNumber), Render(e.message);
    var lines := FieldLines(e)[..4];
    assert lines == [n, "Filename: " + f, "Line: " + l, "Message: " + m];
    JoinFieldLines(n, f, l, m);
    if Truthy(e.extMessage) {
      JoinSnoc(lines, e.extMessage.value, "\n");
      assert FieldLines(e) == lines + [e.extMessage.value];
      Regroup(Join(lines, "\n"), "\n", e.extMessage.value);
    } else {
      assert FieldLines(e) == lines;
    }
  }

  lemma Regroup(a: string, b: string, c: string)
    ensures a + b + c == a + (b + c)
  {
  }

  lemma JoinFieldLines(n: string, f: string, l: string, m: string)
    ensures Join([n, "Filename: " + f, "Line: " + l, "Message: " + m], "\n")
      == n + ("\nFilename: " + f) + ("\nLine: " + l) + ("\nMessage: " + m)
  {
    var ff, ll, mm := "Filename: " + f, "Line: " + l, "Message: " + m;
    JoinFour(n, ff, ll, mm, "\n");
    Regroup(n, "\n", ff);
    Regroup(n + ("\n" + ff), "\n", ll);
    Regroup(n + ("\n" + ff) + ("\n" + ll), "\n", mm);
    Regroup("\n", "Filename: ", f);
    Regroup("\n", "Line: ", l);
    Regroup("\n", "Message: ", m);
  }

  /** A missing exception and the empty record give no trace. */
  lemma TraceOfNothing()
    ensures TraceMessage(None) == ""
    ensures TraceMessage(Some(EmptyRecord)) == ""
  {
  }

  /** A reconstructed trace, with every field present. */
  lemma TraceOfTypeError()
    ensures TraceMessage(Some(ErrorRecord(None, Some("TypeError"), Some("a.js"), Some(12),
                                          Some("x is undefined"), None, true)))
         == "TypeError\nFilename: a.js\nLine: 12\nMessage: x is undefined"
  {
    var e := ErrorRecord(None, Some("TypeError"), Some("a.js"), Some(12), Some("x is undefined"), None, true);
    TraceFromFields(e);
    assert NatToDecimal(12) == "12";
    TypeErrorLines();
  }

  lemma TypeErrorLines()
    ensures FieldTrace("TypeError", "a.js", "12", "x is undefined", None)
         == "TypeError\nFilename: a.js\nLine: 12\nMessage: x is undefined"
  {
    FieldTraceLiteral("TypeError", "a.js", "12", "x is undefined");
    assert "TypeError" + "\nFilename: " == "TypeError\nFilename: ";
    assert "TypeError\nFilename: " + "a.js" == "TypeError\nFilename: a.js";
    assert "TypeError\nFilename: a.js" + "\nLine: " == "TypeError\nFilename: a.js\nLine: ";
    assert "TypeError\nFilename: a.js\nLine: " + "12" == "TypeError\nFilename: a.js\nLine: 12";
    assert "TypeError\nFilename: a.js\nLine: 12" + "\nMessage: " == "TypeError\nFilename: a.js\nLine: 12\nMessage: ";
    assert "TypeError\nFilename: a.js\nLine: 12\nMessage: " + "x is undefined"
        == "TypeError\nFilename: a.js\nLine: 12\nMessage: x is undefined";
  }

  /** A reconstructed trace with every field missing but an own key present. */
  lemma TraceOfBareRecord()
    ensures TraceMessage(Some(ErrorRecord(None, None, None, None, None, None, true)))
         == "undefined\nFilename: undefined\nLine: undefined\nMessage: undefined"
  {
    var e := ErrorRecord(None, None, None, None, None, None, true);
    TraceFromFields(e);
    BareRecordLines();
  }

  lemma BareRecordLines()
    ensures FieldTrace("undefined", "undefined", "undefined", "undefined", None)
         == "undefined\nFilename: undefined\nLine: undefined\nMessage: undefined"
  {
    FieldTraceLiteral("undefined", "undefined", "undefined", "undefined");
    assert "undefined" + "\nFilename: " == "undefined\nFilename: ";
    assert "undefined\nFilename: " + "undefined" == "undefined\nFilename: undefined";
    assert "undefined\nFilename: undefined" + "\nLine: " == "undefined\nFilename: undefined\nLine: ";
    assert "undefined\nFilename: undefined\nLine: " + "undefined" == "undefined\nFilename: undefined\nLine: undefined";
    assert "undefined\nFilename: undefined\nLine: undefined" + "\nMessage: "
        == "undefined\nFilename: undefined\nLine: undefined\nMessage: ";
    assert "undefined\nFilename: undefined\nLine: undefined\nMessage: " + "undefined"
        == "undefined\nFilename: undefined\nLine: undefined\nMessage: undefined";
  }

  lemma FieldTraceLiteral(n: string, f: string, l: string, m: string)
    ensures FieldTrace(n, f, l, m, None) == n + "\nFilename: " + f + "\nLine: " + l + "\nMessage: " + m
  {
    assert FieldTrace(n, f, l, m, None) == n + ("\nFilename: " + f) + ("\nLine: " + l) + ("\nMessage: " + m) + "";
  }


  // ---------------------------------------------------------------------------
  // Layout decisions
  // ---------------------------------------------------------------------------

  /** The window height chosen at construction: tall exactly when there is a
      trace to show. */
  function WindowHeight(trace: string): (h: int)
    ensures h == 400 <==> trace != ""
    ensures h == 200 <==> trace == ""
  {
    if trace != "" then 400 else 200
  }

  /** What `init` hides: the `Trace` field and its label, and the bug-report button. */
  datatype View = View(traceHidden: bool, traceLabelHidden: bool, bugReportButtonHidden: bool)

  function InitView(args: DialogArgs, trace: string): (v: View)
    ensures v.traceHidden <==> trace == ""
    ensures v.traceLabelHidden <==> v.traceHidden
    ensures v.bugReportButtonHidden <==> !args.bugreport
  {
    View(trace == "", trace == "", !args.bugreport)
  }

  /** The tall layout and the visible trace go together, and both happen
      exactly when the exception carries detail. */
  lemma LayoutFollowsDetail(args: DialogArgs)
    ensures var trace := TraceMessage(args.exception);
      var v := InitView(args, trace);
      (WindowHeight(trace) == 400 <==> CarriesDetail(args.exception)) &&
      (WindowHeight(trace) == 200 <==> !CarriesDetail(args.exception)) &&
      (v.traceHidden <==> !CarriesDetail(args.exception)) &&
      v.traceLabelHidden == v.traceHidden &&
      (v.bugReportButtonHidden <==> !args.bugreport)
  {
  }

  // ---------------------------------------------------------------------------
  // The bug report
  // ---------------------------------------------------------------------------

  /** The first body block: the configured message with its first `%VERSION%`
      replaced by the version, in bold and followed by a colon. */
  function Header(cfg: ReportConfig): (h: string)
    ensures StartsWith(h, "**") && EndsWith(h, ":**")
  {
    "**" + ReplaceFirst(cfg.message, "%VERSION%", cfg.version) + ":**"
  }

  /** The quoted summary line; a missing or empty summary reads "Unknown error". */
  function QuotedError(error: Option<string>): (q: string)
    ensures StartsWith(q, "> ") && |q| > 2
    ensures Truthy(error) ==> q == "> " + error.value
    ensures !Truthy(error) ==> q == "> Unknown error"
  {
    "> " + (if Truthy(error) then error.value else "Unknown error")
  }

  /** The environment, verbatim, inside a code fence. */
  function EnvironmentBlock(env: string): (b: string)
    ensures |b| == |env| + 8 && b[4..4 + |env|] == env
  {
    "```\n" + env + "\n```"
  }

  /** The trace verbatim, fenced, under a heading. */
  function TraceBlock(trace: string): (b: string)
    ensures |b| == |trace| + 26 && b[21..21 + |trace|] == trace
  {
    "\n## Stack Trace \n```\n" + trace + "\n```\n"
  }

  /** The fifteen blocks of the body array, in the order the handler lists them. */
  function ReportBlocks(args: DialogArgs, env: string, cfg: ReportConfig): (r: seq<string>)
    ensures |r| == 15 && r[0] == Header(cfg) && r[14] == EnvironmentBlock(env)
    ensures forall i :: 0 <= i < |r| && i % 2 == 1 ==> r[i] == "\n"
    ensures forall i :: 0 <= i < |r| && i % 2 == 0 ==> r[i] == Sections(args, env, cfg)[i / 2]
  {
    Interleaved(Sections(args, env, cfg))
  }

  /** The sections with a `"\n"` block between each two neighbours. */
  function Interleaved(sections: seq<string>): (r: seq<string>)
    requires |sections| > 0
    ensures |r| == 2 * |sections| - 1
    ensures forall i :: 0 <= i < |r| && i % 2 == 1 ==> r[i] == "\n"
    ensures forall i :: 0 <= i < |r| && i % 2 == 0 ==> r[i] == sections[i / 2]
    decreases |sections|
  {
    if |sections| == 1 then sections
    else Interleaved(sections[..|sections| - 1]) + ["\n", sections[|sections| - 1]]
  }

  /** What each `"\n"` block and the two separators around it put between blocks. */
  const Blank := "\n\n\n"

  /** The eight text sections of the report, without the `"\n"` blocks between them. */
  function Sections(args: DialogArgs, env: string, cfg: ReportConfig): seq<string> {
    [ Header(cfg), "> " + Render(args.message), QuotedError(args.error),
      "## Expected behaviour", "## Actual behaviour", "## Steps to reproduce the error",
      "## (Optinal) Browser and OS information", EnvironmentBlock(env) ]
  }

  /** Sections two blank lines apart. */
  function Spaced(sections: seq<string>): (r: string)
    ensures |sections| > 0 ==> |r| >= |sections[0]|
    decreases |sections|
  {
    if |sections| == 0 then ""
    else if |sections| == 1 then sections[0]
    else Spaced(sections[..|sections| - 1]) + Blank + sections[|sections| - 1]
  }

  /** The report text: empty when the issue option is off; otherwise the
      sections two blank lines apart, followed by a newline and the
      stack-trace block only when there is a trace. */
  function ReportText(args: DialogArgs, trace: string, env: string, cfg: ReportConfig): (r: string)
    ensures r == "" <==> !cfg.issue
  {
    if !cfg.issue then ""
    else Spaced(Sections(args, env, cfg)) + (if trace != "" then "\n" + TraceBlock(trace) else "")
  }

  /** The issue title: empty when the issue option is off. */
  function ReportTitle(cfg: ReportConfig): (t: string)
    ensures cfg.issue ==> t == cfg.title
    ensures t == "" <==> !cfg.issue || cfg.title == ""
  {
    if cfg.issue then cfg.title else ""
  }

  /** The URL opened by the button: the template with its first `%TITLE%` and
      then the first `%BODY%` replaced by the encoded title and text. */
  function ReportUrl(args: DialogArgs, trace: string, env: string, cfg: ReportConfig): (u: string)
    ensures !cfg.issue ==> u == ReplaceFirst(ReplaceFirst(cfg.url, "%TITLE%", ""), "%BODY%", "")
  {
    ReplaceFirst(ReplaceFirst(cfg.url, "%TITLE%", EncodeUriComponent(ReportTitle(cfg))),
                 "%BODY%", EncodeUriComponent(ReportText(args, trace, env, cfg)))
  }

  /** The URL a click opens; there is no button to click without `bugreport`. */
  function BugReportAction(args: DialogArgs, trace: string, env: string, cfg: ReportConfig): (a: Option<string>)
    ensures a.Some? <==> !InitView(args, trace).bugReportButtonHidden
    ensures a.Some? ==> a.value == ReportUrl(args, trace, env, cfg)
  {
    if args.bugreport then Some(ReportUrl(args, trace, env, cfg)) else None
  }

  lemma SpacedSnoc(sections: seq<string>, y: string)
    requires |sections| > 0
    ensures Spaced(sections + [y]) == Spaced(sections) + Blank + y
  {
    assert (sections + [y])[..|sections|] == sections;
  }

  lemma JoinSnocBlank(parts: seq<string>, y: string)
    requires |parts| > 0
    ensures Join(parts + ["\n", y], "\n") == Join(parts, "\n") + Blank + y
  {
    JoinSnoc(parts, "\n", "\n");
    JoinSnoc(parts + ["\n"], y, "\n");
    assert parts + ["\n"] + [y] == parts + ["\n", y];
    BlankLiteral(Join(parts, "\n"), y);
  }

  lemma BlankLiteral(x: string, y: string)
    ensures x + "\n" + "\n" + "\n" + y == x + Blank + y
  {
  }

  /** One more section on both sides: a `"\n"` block and the section pushed
      onto the blocks, and the section appended to the sections. */
  lemma JoinSpacedStep(parts: seq<string>, sections: seq<string>, y: string)
    requires |parts| > 0 && |sections| > 0 && Join(parts, "\n") == Spaced(sections)
    ensures Join(parts + ["\n", y], "\n") == Spaced(sections + [y])
  {
    JoinSnocBlank(parts, y);
    SpacedSnoc(sections, y);
  }

  /** Sections with a `"\n"` block between neighbours, joined with `'\n'`,
      are the sections two blank lines apart. */
  lemma {:induction false} JoinInterleaved(sections: seq<string>)
    requires |sections| > 0
    ensures Join(Interleaved(sections), "\n") == Spaced(sections)
    decreases |sections|
  {
    if |sections| > 1 {
      var init, last := sections[..|sections| - 1], sections[|sections| - 1];
      JoinInterleaved(init);
      JoinSpacedStep(Interleaved(init), init, last);
      assert init + [last] == sections;
    }
  }

  /** Joining the fifteen blocks with `'\n'` spaces the eight sections. */
  lemma JoinBlocksSpaced(args: DialogArgs, env: string, cfg: ReportConfig)
    ensures Join(ReportBlocks(args, env, cfg), "\n") == Spaced(Sections(args, env, cfg))
  {
    JoinInterleaved(Sections(args, env, cfg));
  }

  /** Joining the body array with `'\n'`, after the optional `push` of the
      trace block, gives the report text. */
  lemma JoinReportBlocks(args: DialogArgs, trace: string, env: string, cfg: ReportConfig)
    requires cfg.issue
    ensures Join(ReportBlocks(args, env, cfg) + (if trace != "" then [TraceBlock(trace)] else []), "\n")
         == ReportText(args, trace, env, cfg)
  {
    var b := ReportBlocks(args, env, cfg);
    JoinBlocksSpaced(args, env, cfg);
    if trace != "" {
      JoinSnoc(b, TraceBlock(trace), "\n");
    } else {
      assert b + [] == b;
    }
  }

  lemma {:induction false} SpacedStartsWith(sections: seq<string>)
    requires |sections| > 0
    ensures StartsWith(Spaced(sections), sections[0])
    decreases |sections|
  {
    if |sections| > 1 {
      var init := sections[..|sections| - 1];
      SpacedStartsWith(init);
      var x := Spaced(init);
      assert (x + Blank + sections[|sections| - 1])[..|sections[0]|] == x[..|sections[0]|];
    }
  }

  lemma {:induction false} SpacedSecond(sections: seq<string>)
    requires |sections| > 1
    ensures OccursAt(Spaced(sections), sections[1], |sections[0]| + |Blank|)
    decreases |sections|
  {
    var init := sections[..|sections| - 1];
    if |sections| == 2 {
      assert Spaced(init) == sections[0];
    } else {
      SpacedSecond(init);
      OccursAtAppendLeft(Spaced(init), Blank + sections[|sections| - 1], sections[1], |sections[0]| + |Blank|);
      assert Spaced(sections) == Spaced(init) + (Blank + sections[|sections| - 1]);
    }
  }

  /** Without the issue option both the title and the text are empty. */
  lemma ReportEmptyWhenIssueOff(args: DialogArgs, trace: string, env: string, cfg: ReportConfig)
    requires !cfg.issue
    ensures ReportTitle(cfg) == "" && ReportText(args, trace, env, cfg) == ""
    ensures EncodeUriComponent(ReportTitle(cfg)) == "" && EncodeUriComponent(ReportText(args, trace, env, cfg)) == ""
  {
  }

  /** The text starts with the header. */
  lemma ReportStartsWithHeader(args: DialogArgs, trace: string, env: string, cfg: ReportConfig)
    requires cfg.issue
    ensures StartsWith(ReportText(args, trace, env, cfg), Header(cfg))
  {
    var s := Sections(args, env, cfg);
    SpacedStartsWith(s);
    var x := Spaced(s);
    var tail := if trace != "" then "\n" + TraceBlock(trace) else "";
    assert (x + tail)[..|s[0]|] == x[..|s[0]|];
  }

  /** The quoted dialog message follows the header and the first blank gap. */
  lemma ReportQuotesMessage(args: DialogArgs, trace: string, env: string, cfg: ReportConfig)
    requires cfg.issue
    ensures OccursAt(ReportText(args, trace, env, cfg), "> " + Render(args.message), |Header(cfg)| + |Blank|)
  {
    var s := Sections(args, env, cfg);
    SpacedSecond(s);
    var tail := if trace != "" then "\n" + TraceBlock(trace) else "";
    OccursAtAppendLeft(Spaced(s), tail, s[1], |s[0]| + |Blank|);
  }

  /** The header carries the version in place of the first `%VERSION%`. */
  lemma HeaderCarriesVersion(cfg: ReportConfig, i: nat)
    requires IsFirst(cfg.message, "%VERSION%", i)
    ensures Header(cfg) == "**" + cfg.message[..i] + cfg.version + cfg.message[i + 9..] + ":**"
  {
    ReplaceFirstAt(cfg.message, "%VERSION%", cfg.version, i);
  }

  /** The quoted summary is "> Unknown error" exactly when the summary is
      missing, empty, or itself "Unknown error". */
  lemma QuotedErrorUnknown(error: Option<string>)
    ensures QuotedError(error) == "> Unknown error" <==> (!Truthy(error) || error == Some("Unknown error"))
  {
    if QuotedError(error) == "> Unknown error" && Truthy(error) {
      assert error.value == QuotedError(error)[2..];
    }
  }

  /** The text ends with the stack-trace block exactly when the issue option is
      on and there is a trace: without a trace it ends with the environment
      block's closing fence. */
  lemma ReportEndsWithTrace(args: DialogArgs, trace: string, env: string, cfg: ReportConfig)
    ensures EndsWith(ReportText(args, trace, env, cfg), TraceBlock(trace)) <==> (cfg.issue && trace != "")
  {
    var t := ReportText(args, trace, env, cfg);
    var tb := TraceBlock(trace);
    if cfg.issue && trace == "" {
      var s := Sections(args, env, cfg);
      var init := s[..|s| - 1];
      assert t == Spaced(init) + Blank + EnvironmentBlock(env);
      assert t[|t| - 1] == EnvironmentBlock(env)[|EnvironmentBlock(env)| - 1] == '`';
      assert tb[|tb| - 1] == '\n';
    } else if cfg.issue {
      var pre := t[..|t| - |tb|];
      assert t == pre + tb;
    }
  }

  // ---------------------------------------------------------------------------
  // Where the encoded values land in the URL
  // ---------------------------------------------------------------------------

  /** An encoded value holds no placeholder and no `$`, so neither `replace`
      can see a token of its own inside it, and `$` patterns never arise. */
  lemma EncodedHasNoPlaceholder(s: string, i: int)
    ensures !OccursAt(EncodeUriComponent(s), "%TITLE%", i)
    ensures !OccursAt(EncodeUriComponent(s), "%BODY%", i)
    ensures !OccursAt(EncodeUriComponent(s), "%VERSION%", i)
    ensures '$' !in EncodeUriComponent(s)
  {
    var e := EncodeUriComponent(s);
    EscapedAvoidsToken(e, "%TITLE%", i);
    EscapedAvoidsToken(e, "%BODY%", i);
    EscapedAvoidsToken(e, "%VERSION%", i);
  }

  lemma IsFirstInPrefix(u: string, p: string, n: nat, b: nat)
    requires IsFirst(u, p, b) && b + |p| <= n <= |u|
    ensures IsFirst(u[..n], p, b)
  {
    assert u == u[..n] + u[n..];
    OccursAtAppendLeft(u[..n], u[n..], p, b);
    forall i | 0 <= i < b ensures !OccursAt(u[..n], p, i) {
      OccursAtAppendLeft(u[..n], u[n..], p, i);
    }
  }

  lemma NoneInPrefix(u: string, p: string, n: nat)
    requires NoneBefore(u, p, n) && n <= |u|
    ensures NoneBefore(u[..n], p, |u[..n]|)
  {
    assert u == u[..n] + u[n..];
    forall i | 0 <= i < n ensures !OccursAt(u[..n], p, i) {
      if i + |p| <= n {
        OccursAtAppendLeft(u[..n], u[n..], p, i);
      }
    }
  }

  lemma IsFirstExtend(a: string, r: string, p: string, b: nat)
    requires IsFirst(a, p, b) && b + |p| <= |a|
    ensures IsFirst(a + r, p, b)
  {
    OccursAtAppendLeft(a, r, p, b);
    forall i | 0 <= i < b ensures !OccursAt(a + r, p, i) {
      OccursAtAppendLeft(a, r, p, i);
    }
  }

  /** No `%BODY%` starts inside a prefix `a` that holds none and does not end
      in a proper prefix of it. */
  lemma NoBodyFromPrefix(a: string, rest: string, i: nat)
    requires NoneBefore(a, "%BODY%", |a|) && NoPartialSuffix(a, "%BODY%") && i < |a|
    ensures !OccursAt(a + rest, "%BODY%", i)
  {
    var tok, x := "%BODY%", a + rest;
    if i + |tok| <= |a| {
      OccursAtAppendLeft(a, rest, tok, i);
    } else {
      var k := |a| - i;
      assert !EndsWith(a, tok[..k]);
      assert x[i..|a|] == a[|a| - k..];
      if i + |tok| <= |x| {
        assert x[i..i + |tok|][..k] == x[i..|a|];
      }
    }
  }

  /** No `%BODY%` starts inside an escaped `e`: its `%` would be followed by
      an `O` where the escape has a hexadecimal digit. */
  lemma NoBodyFromEscaped(a: string, e: string, r: string, i: nat)
    requires Escaped(e) && |a| <= i < |a| + |e|
    ensures !OccursAt(a + e + r, "%BODY%", i)
  {
    var tok, x := "%BODY%", a + e + r;
    if i + |tok| <= |x| {
      var w, m := x[i..i + |tok|], i - |a|;
      assert w[0] == x[i] == e[m];
      if e[m] == '%' {
        assert m + 2 < |e| && IsHexDigit(e[m + 2]);
        assert w[2] == x[i + 2] == e[m + 2];
        assert tok[2] == 'O';
      } else {
        assert tok[0] == '%';
      }
    }
  }

  /** Before the end of `a`, the length of `e` and the first `n` positions of
      `r`, `a + e + r` holds no `%BODY%` when `a` holds none, does not end in a
      proper prefix of it, `e` is escaped and `r` holds none in its first `n`. */
  lemma NoBodyBefore(a: string, e: string, r: string, n: nat)
    requires Escaped(e)
    requires NoneBefore(a, "%BODY%", |a|) && NoPartialSuffix(a, "%BODY%")
    requires NoneBefore(r, "%BODY%", n)
    ensures NoneBefore(a + e + r, "%BODY%", |a| + |e| + n)
  {
    var tok := "%BODY%";
    var x := a + e + r;
    forall i | 0 <= i < |a| + |e| + n ensures !OccursAt(x, tok, i) {
      if i < |a| {
        assert x == a + (e + r);
        NoBodyFromPrefix(a, e + r, i);
      } else if i < |a| + |e| {
        NoBodyFromEscaped(a, e, r, i);
      } else {
        OccursAtAppendRight(a + e, r, tok, i);
      }
    }
  }

  /** After `a` and an escaped `e`, the first `%BODY%` of `a + e + r` is the first
      of `r`, provided none lies in `a` or begins in `a` and runs past it. */
  lemma FirstBodyAfterEscaped(a: string, e: string, r: string, j: nat)
    requires Escaped(e)
    requires NoneBefore(a, "%BODY%", |a|) && NoPartialSuffix(a, "%BODY%")
    requires IsFirst(r, "%BODY%", j)
    ensures IsFirst(a + e + r, "%BODY%", |a| + |e| + j)
  {
    OccursAtAppendRight(a + e, r, "%BODY%", |a| + |e| + j);
    NoBodyBefore(a, e, r, j);
  }

  /** Both replacements on a template whose first `%TITLE%` (at `t`) has no
      `%BODY%` before it, none that can form across its start, and whose first
      `%BODY%` after it starts at `b`. */
  lemma SubstituteTitleFirst(u: string, e1: string, e2: string, t: nat, b: nat)
    requires Escaped(e1)
    requires IsFirst(u, "%TITLE%", t) && NoneBefore(u, "%BODY%", t)
    requires NoPartialSuffix(u[..t], "%BODY%")
    requires t + 7 <= b && IsFirst(u[t + 7..], "%BODY%", b - t - 7)
    ensures ReplaceFirst(ReplaceFirst(u, "%TITLE%", e1), "%BODY%", e2)
         == u[..t] + e1 + u[t + 7..b] + e2 + u[b + 6..]
  {
    var a, r := u[..t], u[t + 7..];
    ReplaceFirstAt(u, "%TITLE%", e1, t);
    var x := a + e1 + r;
    var j := b - t - 7;
    NoneInPrefix(u, "%BODY%", t);
    FirstBodyAfterEscaped(a, e1, r, j);
    var q := |a| + |e1| + j;
    ReplaceFirstAt(x, "%BODY%", e2, q);
    assert x[..q] == a + e1 + u[t + 7..b];
    assert x[q + 6..] == u[b + 6..];
  }

  /** The first replacement on a template with a `%TITLE%` but no `%BODY%`
      after it; the second then finds nothing. */
  lemma SubstituteTitleOnly(u: string, e1: string, e2: string, t: nat)
    requires Escaped(e1)
    requires IsFirst(u, "%TITLE%", t) && NoneBefore(u, "%BODY%", t)
    requires NoPartialSuffix(u[..t], "%BODY%")
    requires NoneBefore(u[t + 7..], "%BODY%", |u| - t - 7 + 1)
    ensures ReplaceFirst(ReplaceFirst(u, "%TITLE%", e1), "%BODY%", e2) == u[..t] + e1 + u[t + 7..]
  {
    var a, r := u[..t], u[t + 7..];
    ReplaceFirstAt(u, "%TITLE%", e1, t);
    NoneInPrefix(u, "%BODY%", t);
    NoBodyBefore(a, e1, r, |r| + 1);
    ReplaceFirstAbsent(a + e1 + r, "%BODY%", e2);
  }

  /** Both replacements on a template whose first `%BODY%` comes first. */
  lemma SubstituteBodyFirst(u: string, e1: string, e2: string, t: nat, b: nat)
    requires IsFirst(u, "%TITLE%", t) && IsFirst(u, "%BODY%", b) && b + 6 <= t
    ensures ReplaceFirst(ReplaceFirst(u, "%TITLE%", e1), "%BODY%", e2)
         == u[..b] + e2 + u[b + 6..t] + e1 + u[t + 7..]
  {
    ReplaceFirstAt(u, "%TITLE%", e1, t);
    var x := u[..t] + (e1 + u[t + 7..]);
    assert ReplaceFirst(u, "%TITLE%", e1) == x;
    IsFirstInPrefix(u, "%BODY%", t, b);
    IsFirstExtend(u[..t], e1 + u[t + 7..], "%BODY%", b);
    ReplaceFirstAt(x, "%BODY%", e2, b);
    assert x[..b] == u[..b];
    assert x[b + 6..] == u[b + 6..t] + e1 + u[t + 7..];
  }

  /** When no `%BODY%` comes before the template's first `%TITLE%` (at `t`),
      none can form across the start of the encoded title, and the first
      `%BODY%` after the title is at `b`, the URL is the template with exactly
      those two placeholders replaced by the encoded title and text. This
      covers a `%BODY%` that shares the title's closing `%`, as in
      `%TITLE%BODY%…%BODY%`: the title's replacement removes it. */
  lemma UrlTitleFirst(args: DialogArgs, trace: string, env: string, cfg: ReportConfig, t: nat, b: nat)
    requires IsFirst(cfg.url, "%TITLE%", t) && NoneBefore(cfg.url, "%BODY%", t)
    requires NoPartialSuffix(cfg.url[..t], "%BODY%")
    requires t + 7 <= b && IsFirst(cfg.url[t + 7..], "%BODY%", b - t - 7)
    ensures ReportUrl(args, trace, env, cfg)
         == cfg.url[..t] + EncodeUriComponent(ReportTitle(cfg)) + cfg.url[t + 7..b]
            + EncodeUriComponent(ReportText(args, trace, env, cfg)) + cfg.url[b + 6..]
  {
    SubstituteTitleFirst(cfg.url, EncodeUriComponent(ReportTitle(cfg)),
      EncodeUriComponent(ReportText(args, trace, env, cfg)), t, b);
  }

  /** When the first `%BODY%` comes before the first `%TITLE%`, the text goes
      in its place and the title in the later one; no condition is needed. */
  lemma UrlBodyFirst(args: DialogArgs, trace: string, env: string, cfg: ReportConfig, t: nat, b: nat)
    requires IsFirst(cfg.url, "%TITLE%", t) && IsFirst(cfg.url, "%BODY%", b) && b + 6 <= t
    ensures ReportUrl(args, trace, env, cfg)
         == cfg.url[..b] + EncodeUriComponent(ReportText(args, trace, env, cfg)) + cfg.url[b + 6..t]
            + EncodeUriComponent(ReportTitle(cfg)) + cfg.url[t + 7..]
  {
    SubstituteBodyFirst(cfg.url, EncodeUriComponent(ReportTitle(cfg)),
      EncodeUriComponent(ReportText(args, trace, env, cfg)), t, b);
  }

  /** A template with a `%TITLE%` and no `%BODY%` after it gets the encoded
      title and nothing else. */
  lemma UrlTitleOnly(args: DialogArgs, trace: string, env: string, cfg: ReportConfig, t: nat)
    requires IsFirst(cfg.url, "%TITLE%", t) && NoneBefore(cfg.url, "%BODY%", t)
    requires NoPartialSuffix(cfg.url[..t], "%BODY%")
    requires NoneBefore(cfg.url[t + 7..], "%BODY%", |cfg.url| - t - 7 + 1)
    ensures ReportUrl(args, trace, env, cfg) == cfg.url[..t] + EncodeUriComponent(ReportTitle(cfg)) + cfg.url[t + 7..]
  {
    SubstituteTitleOnly(cfg.url, EncodeUriComponent(ReportTitle(cfg)),
      EncodeUriComponent(ReportText(args, trace, env, cfg)), t);
  }

  /** A template with a `%BODY%` and no `%TITLE%` gets the encoded text and
      nothing else. */
  lemma UrlBodyOnly(args: DialogArgs, trace: string, env: string, cfg: ReportConfig, b: nat)
    requires NoneBefore(cfg.url, "%TITLE%", |cfg.url| + 1) && IsFirst(cfg.url, "%BODY%", b)
    ensures ReportUrl(args, trace, env, cfg)
         == cfg.url[..b] + EncodeUriComponent(ReportText(args, trace, env, cfg)) + cfg.url[b + 6..]
  {
    ReplaceFirstAbsent(cfg.url, "%TITLE%", EncodeUriComponent(ReportTitle(cfg)));
    ReplaceFirstAt(cfg.url, "%BODY%", EncodeUriComponent(ReportText(args, trace, env, cfg)), b);
  }

  /** With the issue option off, the URL is the template with the two
      placeholders deleted. */
  lemma UrlWhenIssueOff(args: DialogArgs, trace: string, env: string, cfg: ReportConfig, t: nat, b: nat)
    requires !cfg.issue
    requires IsFirst(cfg.url, "%TITLE%", t) && NoneBefore(cfg.url, "%BODY%", t)
    requires NoPartialSuffix(cfg.url[..t], "%BODY%")
    requires t + 7 <= b && IsFirst(cfg.url[t + 7..], "%BODY%", b - t - 7)
    ensures ReportUrl(args, trace, env, cfg) == cfg.url[..t] + cfg.url[t + 7..b] + cfg.url[b + 6..]
  {
    UrlTitleFirst(args, trace, env, cfg, t, b);
    assert EncodeUriComponent("") == "";
  }

  /** A template without placeholders is opened as it is. */
  lemma UrlWithoutPlaceholders(args: DialogArgs, trace: string, env: string, cfg: ReportConfig)
    requires NoneBefore(cfg.url, "%TITLE%", |cfg.url| + 1) && NoneBefore(cfg.url, "%BODY%", |cfg.url| + 1)
    ensures ReportUrl(args, trace, env, cfg) == cfg.url
  {
    ReplaceFirstAbsent(cfg.url, "%TITLE%", EncodeUriComponent(ReportTitle(cfg)));
    ReplaceFirstAbsent(cfg.url, "%BODY%", EncodeUriComponent(ReportText(args, trace, env, cfg)));
  }

  /** A single mismatching character rules an occurrence out. */
  lemma NotAtMismatch(u: string, p: string, i: nat, k: nat)
    requires k < |p| && i + k < |u| && u[i + k] != p[k]
    ensures !OccursAt(u, p, i)
  {
    if i + |p| <= |u| {
      assert u[i..i + |p|][k] == u[i + k];
    }
  }

  /** Text without `%` holds no placeholder, not even one running into what follows. */
  lemma NoPercentNoneBefore(a: string, p: string, rest: string)
    requires '%' !in a && |p| > 0 && p[0] == '%'
    ensures NoneBefore(a + rest, p, |a|)
  {
    forall i | 0 <= i < |a| ensures !OccursAt(a + rest, p, i) {
      assert (a + rest)[i] == a[i];
      NotAtMismatch(a + rest, p, i, 0);
    }
  }

  /** After text without `%`, a placeholder is the first of its kind. */
  lemma PlainFirst(a: string, p: string, rest: string)
    requires '%' !in a && |p| > 0 && p[0] == '%'
    ensures IsFirst(a + p + rest, p, |a|)
  {
    assert a + p + rest == a + (p + rest);
    NoPercentNoneBefore(a, p, p + rest);
    assert (a + p + rest)[|a|..|a| + |p|] == p;
  }

  /** A string without `%` cannot end in the start of a placeholder. */
  lemma NoPercentNoPartialSuffix(a: string, p: string)
    requires '%' !in a && |p| > 0 && p[0] == '%'
    ensures NoPartialSuffix(a, p)
  {
    forall k | 0 < k < |p| ensures !EndsWith(a, p[..k]) {
      if k <= |a| {
        assert a[|a| - k..][0] == a[|a| - k];
      }
    }
  }

  /** Where the placeholders of `u = pre%TITLE%mid%BODY%post` are, and what
      lies between them. */
  lemma PlainTemplateFirsts(u: string, pre: string, mid: string, post: string)
    requires u == pre + "%TITLE%" + mid + "%BODY%" + post
    requires '%' !in pre && '%' !in mid
    ensures IsFirst(u, "%TITLE%", |pre|) && NoneBefore(u, "%BODY%", |pre|)
    ensures NoPartialSuffix(u[..|pre|], "%BODY%")
    ensures IsFirst(u[|pre| + 7..], "%BODY%", |mid|)
    ensures u[..|pre|] == pre && u[|pre| + 7..|pre| + 7 + |mid|] == mid && u[|pre| + 13 + |mid|..] == post
  {
    var r := mid + "%BODY%" + post;
    assert u == pre + "%TITLE%" + r;
    PlainFirst(pre, "%TITLE%", r);
    NoPercentNoneBefore(pre, "%BODY%", "%TITLE%" + r);
    assert pre + ("%TITLE%" + r) == u;
    NoPercentNoPartialSuffix(pre, "%BODY%");
    PlainFirst(mid, "%BODY%", post);
    assert u[..|pre|] == pre;
    assert u[|pre| + 7..] == r;
    assert r[..|mid|] == mid && r[|mid| + 6..] == post;
  }

  /** Both replacements on a template `pre%TITLE%mid%BODY%post`. */
  lemma SubstitutePlain(pre: string, mid: string, post: string, e1: string, e2: string)
    requires '%' !in pre && '%' !in mid && Escaped(e1)
    ensures ReplaceFirst(ReplaceFirst(pre + "%TITLE%" + mid + "%BODY%" + post, "%TITLE%", e1), "%BODY%", e2)
         == pre + e1 + mid + e2 + post
  {
    var u := pre + "%TITLE%" + mid + "%BODY%" + post;
    var t, b := |pre|, |pre| + 7 + |mid|;
    PlainTemplateFirsts(u, pre, mid, post);
    SubstituteTitleFirst(u, e1, e2, t, b);
    assert u[..t] == pre && u[t + 7..b] == mid && u[b + 6..] == post;
  }

  /** Both replacements on `%TITLE%BODY%BODY%`. */
  lemma SubstituteShared(e1: string, e2: string)
    requires Escaped(e1)
    ensures ReplaceFirst(ReplaceFirst("%TITLE%" + "BODY" + "%BODY%", "%TITLE%", e1), "%BODY%", e2)
         == e1 + "BODY" + e2
  {
    var u := "" + "%TITLE%" + "BODY" + "%BODY%" + "";
    assert u == "%TITLE%" + "BODY" + "%BODY%";
    SubstitutePlain("", "BODY", "", e1, e2);
    assert "" + e1 + "BODY" + e2 + "" == e1 + "BODY" + e2;
  }

  /** The template `%TITLE%BODY%BODY%`: its first `%BODY%` shares the title's
      closing `%`, and still each placeholder gets its own value. */
  lemma UrlSharedPercent(args: DialogArgs, trace: string, env: string, cfg: ReportConfig)
    requires cfg.url == "%TITLE%" + "BODY" + "%BODY%"
    ensures ReportUrl(args, trace, env, cfg)
         == EncodeUriComponent(ReportTitle(cfg)) + "BODY" + EncodeUriComponent(ReportText(args, trace, env, cfg))
  {
    SubstituteShared(EncodeUriComponent(ReportTitle(cfg)), EncodeUriComponent(ReportText(args, trace, env, cfg)));
  }

  /** The usual template shape: the encoded title and text replace exactly
      the two placeholders. */
  lemma UrlForPlainTemplate(args: DialogArgs, trace: string, env: string, cfg: ReportConfig,
                            pre: string, mid: string, post: string)
    requires cfg.url == pre + "%TITLE%" + mid + "%BODY%" + post
    requires '%' !in pre && '%' !in mid
    ensures ReportUrl(args, trace, env, cfg)
         == pre + EncodeUriComponent(ReportTitle(cfg)) + mid
            + EncodeUriComponent(ReportText(args, trace, env, cfg)) + post
  {
    SubstitutePlain(pre, mid, post, EncodeUriComponent(ReportTitle(cfg)),
      EncodeUriComponent(ReportText(args, trace, env, cfg)));
  }

  lemma SubstituteMisplaced(e2: string)
    ensures ReplaceFirst(ReplaceFirst("%BO" + "%TITLE%" + "%BODY%", "%TITLE%", "DY"), "%BODY%", e2)
         == e2 + "BODY%"
  {
    var u := "%BO" + "%TITLE%" + "%BODY%";
    assert u[3..10] == "%TITLE%" && u[..3] == "%BO" && u[10..] == "%BODY%";
    forall i | 0 <= i < 3 ensures !OccursAt(u, "%TITLE%", i) {
      assert u[i + 1] == u[i..i + 7][1];
    }
    ReplaceFirstAt(u, "%TITLE%", "DY", 3);
    var x := "%BODY%BODY%";
    assert "%BO" + "DY" == "%BODY";
    assert "%BODY" + "%BODY%" == x;
    assert ReplaceFirst(u, "%TITLE%", "DY") == x;
    assert x[..6] == "%BODY%";
    assert x[6..] == "BODY%";
    ReplaceFirstAt(x, "%BODY%", e2, 0);
  }

  /** Why `UrlTitleFirst` needs its last condition: with the template
      `%BO%TITLE%%BODY%` and the title "DY", the first replacement forms a new
      `%BODY%` at the start; the text lands there, and what is left of the
      template's own placeholder stays in the URL. */
  lemma UrlBodyMisplaced(args: DialogArgs, trace: string, env: string, cfg: ReportConfig)
    requires cfg.issue && cfg.title == "DY" && cfg.url == "%BO" + "%TITLE%" + "%BODY%"
    ensures ReportUrl(args, trace, env, cfg) == EncodeUriComponent(ReportText(args, trace, env, cfg)) + "BODY%"
  {
    EncodeKeepsUnreserved("DY");
    SubstituteMisplaced(EncodeUriComponent(ReportText(args, trace, env, cfg)));
  }

  // ---------------------------------------------------------------------------
  // A whole scenario
  // ---------------------------------------------------------------------------

  /** The new-issue template of the scenario below. */
  const IssueTemplate := "https://x/new?title=" + "%TITLE%" + "&body=" + "%BODY%"

  lemma IssueTemplateUrl(args: DialogArgs, trace: string, env: string, cfg: ReportConfig)
    requires cfg.url == IssueTemplate
    ensures ReportUrl(args, trace, env, cfg)
         == "https://x/new?title=" + EncodeUriComponent(ReportTitle(cfg)) + "&body="
            + EncodeUriComponent(ReportText(args, trace, env, cfg))
  {
    var pre, mid := "https://x/new?title=", "&body=";
    assert '%' !in pre by {
      assert forall i :: 0 <= i < |pre| ==> pre[i] != '%';
    }
    assert '%' !in mid by {
      assert forall i :: 0 <= i < |mid| ==> mid[i] != '%';
    }
    assert cfg.url == pre + "%TITLE%" + mid + "%BODY%" + "";
    UrlForPlainTemplate(args, trace, env, cfg, pre, mid, "");
  }

  lemma EscapedHidesSeparators(r: string)
    requires Escaped(r)
    ensures forall i :: 0 <= i < |r| ==> r[i] != '&' && r[i] != '=' && r[i] != '\n' && r[i] != '#'
  {
    forall i | 0 <= i < |r| ensures r[i] != '&' && r[i] != '=' && r[i] != '\n' && r[i] != '#' {
      assert IsUnreserved(r[i]) || r[i] == '%';
    }
  }

  /** Characters with a meaning in a query string never survive encoding. */
  lemma EncodedHidesSeparators(s: string)
    ensures '&' !in EncodeUriComponent(s) && '=' !in EncodeUriComponent(s)
    ensures '\n' !in EncodeUriComponent(s) && '#' !in EncodeUriComponent(s)
  {
    EscapedHidesSeparators(EncodeUriComponent(s));
  }

  /** No placeholder can be found in text glued from `%`-free literals and
      escaped values: each `%` is followed by two hexadecimal digits. */
  lemma NoTokenInFill(pre: string, e1: string, mid: string, e2: string, tok: string, i: int)
    requires '%' !in pre && '%' !in mid && Escaped(e1) && Escaped(e2)
    requires |tok| >= 3 && tok[0] == '%' && !IsHexDigit(tok[2])
    ensures !OccursAt(pre + e1 + mid + e2, tok, i)
  {
    var x := pre + e1 + mid + e2;
    if 0 <= i && i + |tok| <= |x| {
      assert x[i..i + |tok|][0] == x[i] && x[i..i + |tok|][2] == x[i + 2];
      var n1, n2 := |pre| + |e1|, |pre| + |e1| + |mid|;
      if |pre| <= i < n1 && e1[i - |pre|] == '%' {
        assert x[i + 2] == e1[i - |pre| + 2];
      } else if n2 <= i && e2[i - n2] == '%' {
        assert x[i + 2] == e2[i - n2 + 2];
      }
    }
  }

  /** With the usual template no placeholder is left in the URL. */
  lemma IssueTemplateFilled(args: DialogArgs, trace: string, env: string, cfg: ReportConfig, i: int)
    requires cfg.url == IssueTemplate
    ensures !OccursAt(ReportUrl(args, trace, env, cfg), "%TITLE%", i)
    ensures !OccursAt(ReportUrl(args, trace, env, cfg), "%BODY%", i)
  {
    var pre, mid := "https://x/new?title=", "&body=";
    assert '%' !in pre by {
      assert forall k :: 0 <= k < |pre| ==> pre[k] != '%';
    }
    assert '%' !in mid by {
      assert forall k :: 0 <= k < |mid| ==> mid[k] != '%';
    }
    IssueTemplateUrl(args, trace, env, cfg);
    var e1 := EncodeUriComponent(ReportTitle(cfg));
    var e2 := EncodeUriComponent(ReportText(args, trace, env, cfg));
    NoTokenInFill(pre, e1, mid, e2, "%TITLE%", i);
    NoTokenInFill(pre, e1, mid, e2, "%BODY%", i);
  }

  /** The report half of the scenario below, for any non-empty trace. */
  lemma QuotedReportUrl(args: DialogArgs, trace: string, env: string, cfg: ReportConfig)
    requires args.message == Some("Save failed") && args.bugreport && trace != ""
    requires cfg.issue && cfg.url == IssueTemplate
    ensures BugReportAction(args, trace, env, cfg)
         == Some("https://x/new?title=" + EncodeUriComponent(cfg.title) + "&body="
                 + EncodeUriComponent(ReportText(args, trace, env, cfg)))
    ensures DecodeUriComponent(EncodeUriComponent(ReportText(args, trace, env, cfg)))
         == Some(ReportText(args, trace, env, cfg))
    ensures OccursAt(ReportText(args, trace, env, cfg), "> Save failed", |Header(cfg)| + |Blank|)
    ensures EndsWith(ReportText(args, trace, env, cfg), TraceBlock(trace))
  {
    IssueTemplateUrl(args, trace, env, cfg);
    DecodeEncode(ReportText(args, trace, env, cfg));
    ReportQuotesMessage(args, trace, env, cfg);
    QuoteLiteral(Render(args.message));
    ReportEndsWithTrace(args, trace, env, cfg);
  }

  lemma QuoteLiteral(m: string)
    requires m == "Save failed"
    ensures "> " + m == "> Save failed"
  {
  }

  /** A failed save whose exception carries only a stack, with the issue
      option on and the usual template: the stack is the trace, the tall
      layout shows it, the button opens the template filled with the encoded
      title and text, the text decodes back, quotes the message and ends with
      the fenced stack. */
  lemma SaveFailedScenario(args: DialogArgs, env: string, cfg: ReportConfig)
    requires args == DialogArgs(Some("Save failed"), Some("IOException"),
      Some(EmptyRecord.(stack := Some("at save()\nat main()"), hasOwnKeys := true)), true)
    requires cfg.issue && cfg.url == IssueTemplate
    ensures TraceMessage(args.exception) == "at save()\nat main()"
    ensures WindowHeight(TraceMessage(args.exception)) == 400
    ensures InitView(args, TraceMessage(args.exception)) == View(false, false, false)
    ensures var text := ReportText(args, TraceMessage(args.exception), env, cfg);
      && BugReportAction(args, TraceMessage(args.exception), env, cfg)
         == Some("https://x/new?title=" + EncodeUriComponent(cfg.title) + "&body=" + EncodeUriComponent(text))
      && DecodeUriComponent(EncodeUriComponent(text)) == Some(text)
      && OccursAt(text, "> Save failed", |Header(cfg)| + |Blank|)
      && EndsWith(text, TraceBlock("at save()\nat main()"))
  {
    var trace := "at save()\nat main()";
    TraceFromStack(args.exception.value);
    QuotedReportUrl(args, trace, env, cfg);
  }

  // ---------------------------------------------------------------------------
  // The dialog object
  // ---------------------------------------------------------------------------

  /** The dialog: the constructor stores `args` and the trace and picks the
      height; `init` and the button's click handler read them. */
  class Dialog {
    const args: DialogArgs
    const traceMessage: string
    const height: int

    ghost predicate Valid() {
      traceMessage == TraceMessage(args.exception) && height == WindowHeight(traceMessage)
    }

    constructor (args: DialogArgs)
      ensures this.args == args && Valid()
    {
      this.args := args;
      var error := BuildTrace(args.exception);
      traceMessage := error;
      height := if error != "" then 400 else 200;
    }

    /** What `init` hides: the trace and its label exactly when the exception
        carried no detail, the button exactly when `bugreport` is falsy; the
        tall window goes with a visible trace. */
    function Init(): (v: View)
      requires Valid()
      ensures v.traceHidden <==> !CarriesDetail(args.exception)
      ensures v.traceLabelHidden == v.traceHidden
      ensures v.bugReportButtonHidden <==> !args.bugreport
      ensures height == 400 <==> !v.traceHidden
    {
      InitView(args, traceMessage)
    }

    /** The click handler: sets the title and the body array, pushes the trace
        block when there is a trace, then encodes and substitutes. */
    method OnBugReportClick(env: string, cfg: ReportConfig) returns (url: string)
      ensures url == ReportUrl(args, traceMessage, env, cfg)
    {
      var title := "";
      var body: seq<string> := [];
      if cfg.issue {
        title := cfg.title;
        body := ReportBlocks(args, env, cfg);
        if traceMessage != "" {
          body := body + [TraceBlock(traceMessage)];
        }
        assert body == ReportBlocks(args, env, cfg) + (if traceMessage != "" then [TraceBlock(traceMessage)] else []);
        JoinReportBlocks(args, traceMessage, env, cfg);
      }
      url := ReplaceFirst(ReplaceFirst(cfg.url, "%TITLE%", EncodeUriComponent(title)),
                          "%BODY%", EncodeUriComponent(Join(body, "\n")));
    }
  }
}
