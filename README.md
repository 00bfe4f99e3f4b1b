# Error dialog of OS.js: trace, layout and bug-report URL

This project models the core of the OS.js error dialog
(`src/client/javascript/dialogs/error.js`) in Dafny. It covers three steps:

- **The trace.** The constructor turns `args.exception` into a
  `traceMessage`. A non-empty `stack` is used verbatim. Otherwise, a record
  with at least one own key gives the lines `name`, `Filename: …`, `Line: …`
  and `Message: …`, plus the `extMessage` when it is non-empty. Otherwise the
  trace is empty. A missing field reads `undefined`, as string `+` renders it.
  The window is 400 pixels tall with a trace and 200 without.
- **The layout.** `init` hides the `Trace` field and its label when the trace
  is empty. It hides the bug-report button when `args.bugreport` is falsy.
- **The report.** The button's click handler builds a title and a body of
  fifteen blocks. It adds a stack-trace block when there is a trace, and joins
  the body with `'\n'`. It then encodes both with `encodeURIComponent` and puts
  them into the configured URL template. The first `%TITLE%` is replaced
  first, then the first `%BODY%` of the result. With the issue option off,
  the title and body are empty but the URL is still built.

Files:

- `js_strings.dfy` (module `JsStrings`) holds the JavaScript string
  behaviour the dialog relies on:
  - truthiness, `+` rendering of `undefined`, and `||` on strings;
  - decimal rendering of an integral Number;
  - `String.prototype.replace` with a string pattern, which replaces only
    the first occurrence;
  - `Array.prototype.join`.
- `uri_encoding.dfy` (module `UriEncoding`) holds `encodeURIComponent` as
  specified by ECMA-262: full UTF-8, the unreserved set
  `A–Z a–z 0–9 - _ . ! ~ * ' ( )`, and upper-case hexadecimal digits. It also
  holds `decodeURIComponent`. The decoder reads escapes written with digits
  of either case, and gives `None` where the standard throws `URIError`. It
  is proved to undo the encoder.
- `error_dialog.dfy` (module `ErrorDialog`) holds:
  - the records and the trace, both as a function and as the constructor's
    step-by-step `+=` computation;
  - the layout decisions and the report text and URL;
  - the `Dialog` class, whose constructor, `Init` and `OnBugReportClick`
    mirror the source's constructor, `init` and click handler.

Configuration values (`BugReporting.options.issue`/`title`/`message`,
`Version`, `BugReporting.url`) are parameters in a `ReportConfig`. The
`JSON.stringify` of the navigator fields is an opaque parameter `env`.

Some lines of the code do something other than what they appear to say.
The model follows what they do:

- **Line 62 never gives `<unknown>`.** The line reads
  `'\nFilename: ' + exception.fileName || '<unknown>'`, which looks like a
  fallback for a missing file name. But `+` binds tighter than `||`, so the
  left operand is never empty. A missing file name
  therefore reads `Filename: undefined`, never `Filename: <unknown>`
  (`BuildTrace`, `TraceFromFields`).
- **The button does not depend on the issue option.** Line 102 guards the
  button with `args.bugreport` alone. The issue option, checked inside the
  handler, only decides whether title and body get any text. So the button
  is shown exactly when `args.bugreport` is truthy (`BugReportAction`). With
  the issue option off, it still opens the template, with empty title and
  body (`UrlWhenIssueOff`).
- **"> Unknown error" has two causes.** The quoted summary reads
  `> Unknown error` when the summary is missing or empty, and also when it
  is literally "Unknown error" (`QuotedErrorUnknown` proves both
  directions).
- **The second `replace` can miss.** It searches the partly substituted URL.
  If a template has text before its `%TITLE%` ending in `%BO`, the encoded
  title can complete a new `%BODY%` there. This happens when the encoded
  title begins with `DY%` (the title "DY x" encodes to `DY%20x`). It also
  happens when the encoded title is exactly `DY` and the template has a `%`
  right after `%TITLE%`. The body then lands in the wrong place, as
  `UrlBodyMisplaced` shows for the template `%BO%TITLE%%BODY%` and the
  title "DY". `UrlTitleFirst` therefore requires
  that the text before `%TITLE%` does not end in a proper prefix of `%BODY%`.
  A template `pre%TITLE%mid%BODY%post` with no `%` in `pre` or `mid` meets
  this (`UrlForPlainTemplate`). That includes `mid` = `BODY`, where the first
  `%BODY%` shares the title's closing `%` (`UrlSharedPercent`).

Running the same operation twice gives the same result, because every
operation of the model is a function of its inputs or is proved equal to
one.

## Model

| member | source | states |
|---|---|---|
| ErrorDialog.TraceMessage | src/client/javascript/dialogs/error.js:55-69 | the trace is non-empty exactly when the exception is present and has a non-empty stack or an own key |
| ErrorDialog.BuildTrace | src/client/javascript/dialogs/error.js:55-69 | the constructor's step-by-step `+=` computation, including the `\|\| '<unknown>'` step, yields exactly `TraceMessage` |
| ErrorDialog.TraceFromStack | src/client/javascript/dialogs/error.js:57-58 | a non-empty stack is the trace verbatim, whatever the other fields hold |
| ErrorDialog.TraceFromFields | src/client/javascript/dialogs/error.js:60-67 | without a stack, a record with an own key gives name, `\nFilename: `, `\nLine: `, `\nMessage: ` with missing fields as "undefined", then `\n` and the extra message only when it is non-empty |
| ErrorDialog.RenderNumber | src/client/javascript/dialogs/error.js:63 | `"" + lineNumber` reads "undefined" exactly when the line number is missing, and a line number that is not negative is written in digits only |
| ErrorDialog.RenderNumberValue | src/client/javascript/dialogs/error.js:63 | the digits of a rendered line number denote that number: all of them for a non-negative one, those after `-` for a negative one |
| ErrorDialog.TraceOfNothing | src/client/javascript/dialogs/error.js:55-69 | a missing exception and the empty record give the empty trace |
| ErrorDialog.TraceOfTypeError | src/client/javascript/dialogs/error.js:60-64 | the record TypeError / a.js / 12 / "x is undefined" gives "TypeError\nFilename: a.js\nLine: 12\nMessage: x is undefined" |
| ErrorDialog.TraceOfBareRecord | src/client/javascript/dialogs/error.js:60-64 | a record with an own key but no known field gives four lines that all read "undefined" |
| ErrorDialog.WindowHeight | src/client/javascript/dialogs/error.js:75 | the height is 400 exactly when there is a trace, and 200 exactly when there is none |
| ErrorDialog.InitView | src/client/javascript/dialogs/error.js:97-145 | the trace field is hidden exactly when the trace is empty, its label exactly when the field is, and the button exactly when `bugreport` is falsy |
| ErrorDialog.LayoutFollowsDetail | src/client/javascript/dialogs/error.js:75-145 | the height is 400 exactly when the exception carries detail and 200 otherwise; trace and label are hidden exactly when it carries none; the button is hidden exactly when `bugreport` is falsy |
| ErrorDialog.Dialog.constructor | src/client/javascript/dialogs/error.js:50-81 | stores the arguments, sets `traceMessage` to the trace and the height that goes with it |
| ErrorDialog.Dialog.Init | src/client/javascript/dialogs/error.js:97-145 | hides trace and label exactly when the exception carried no detail, hides the button exactly when `bugreport` is falsy; the tall window goes with a visible trace |
| ErrorDialog.Dialog.OnBugReportClick | src/client/javascript/dialogs/error.js:103-140 | building title and body array, the optional push, the join and both replacements gives exactly `ReportUrl` |
| ErrorDialog.Header | src/client/javascript/dialogs/error.js:116 | the header block starts with `**` and ends with `:**` |
| ErrorDialog.QuotedError | src/client/javascript/dialogs/error.js:120 | the summary line is `> ` followed by the summary as written when the summary is present and non-empty, and `> Unknown error` otherwise; either way it is `> ` followed by text that is never empty |
| ErrorDialog.EnvironmentBlock | src/client/javascript/dialogs/error.js:130 | the environment block holds the environment verbatim from position 4 on, with 8 characters of fences and newlines around it |
| ErrorDialog.TraceBlock | src/client/javascript/dialogs/error.js:134 | the block holds the trace verbatim from position 21 on, with 26 characters of heading and fences around it |
| ErrorDialog.ReportBlocks | src/client/javascript/dialogs/error.js:115-131 | fifteen blocks: the header first and the environment block last, `"\n"` at every odd position, and the eight text sections in order at the even ones |
| ErrorDialog.ReportTitle | src/client/javascript/dialogs/error.js:104-114 | with the issue option on the title is the configured one; it is empty exactly when the option is off or the configured title is empty |
| ErrorDialog.ReportText | src/client/javascript/dialogs/error.js:104-135 | the report text is empty exactly when the issue option is off |
| ErrorDialog.ReportUrl | src/client/javascript/dialogs/error.js:138-140 | with the issue option off, the URL is the template with its first `%TITLE%` and then its first `%BODY%` deleted |
| ErrorDialog.BugReportAction | src/client/javascript/dialogs/error.js:102-145 | a click opens a URL exactly when the button is not hidden, whatever the issue option, and that URL is `ReportUrl` |
| ErrorDialog.JoinInterleaved | src/client/javascript/dialogs/error.js:115-140 | any non-empty list of sections, with a `"\n"` block between neighbours and joined with `\n`, is those sections two blank lines apart |
| ErrorDialog.JoinReportBlocks | src/client/javascript/dialogs/error.js:115-140 | the fifteen blocks, plus the trace block when there is a trace, joined with `\n` are the report text: blocks two blank lines apart, then the trace block after one more newline |
| ErrorDialog.ReportEmptyWhenIssueOff | src/client/javascript/dialogs/error.js:104-107 | with the issue option off the title, the text and both encodings are empty |
| ErrorDialog.ReportStartsWithHeader | src/client/javascript/dialogs/error.js:115-116 | with the issue option on the text begins with the header |
| ErrorDialog.HeaderCarriesVersion | src/client/javascript/dialogs/error.js:116 | the header is `**`, the message with the version in place of its first `%VERSION%`, then `:**` |
| ErrorDialog.ReportQuotesMessage | src/client/javascript/dialogs/error.js:117-118 | the quoted dialog message (`> ` then the message or "undefined") follows the header and one blank gap |
| ErrorDialog.QuotedErrorUnknown | src/client/javascript/dialogs/error.js:120 | the summary line is "> Unknown error" if and only if the summary is missing or empty or is itself "Unknown error" |
| ErrorDialog.ReportEndsWithTrace | src/client/javascript/dialogs/error.js:133-135 | the text ends with the stack-trace block if and only if the issue option is on and the trace is non-empty |
| ErrorDialog.EncodedHasNoPlaceholder | src/client/javascript/dialogs/error.js:138-140 | an encoded value contains no `%TITLE%`, `%BODY%`, `%VERSION%` and no `$` |
| ErrorDialog.EncodedHidesSeparators | src/client/javascript/dialogs/error.js:139-140 | `&`, `=`, `#` and newline never appear in an encoded value |
| ErrorDialog.UrlTitleFirst | src/client/javascript/dialogs/error.js:138-140 | with no `%BODY%` before the first `%TITLE%`, none formed across the start of the encoded title, and the first `%BODY%` after the title at `b`, the URL is the template with that `%TITLE%` and that `%BODY%` replaced by the encoded title and text |
| ErrorDialog.UrlBodyFirst | src/client/javascript/dialogs/error.js:138-140 | with the first `%BODY%` before the first `%TITLE%`, the encoded text replaces the former and the encoded title the latter, the rest of the template unchanged |
| ErrorDialog.UrlTitleOnly | src/client/javascript/dialogs/error.js:138-140 | under the same conditions on the text before the title, a template with no `%BODY%` after its first `%TITLE%` gets the encoded title in its place and nothing else |
| ErrorDialog.UrlBodyOnly | src/client/javascript/dialogs/error.js:138-140 | a template without `%TITLE%` gets the encoded text in place of its first `%BODY%` and nothing else |
| ErrorDialog.UrlWhenIssueOff | src/client/javascript/dialogs/error.js:104-140 | with the issue option off, under the conditions of `UrlTitleFirst`, the URL is the template with its two placeholders deleted |
| ErrorDialog.UrlWithoutPlaceholders | src/client/javascript/dialogs/error.js:138-140 | a template without placeholders is the URL unchanged |
| ErrorDialog.UrlForPlainTemplate | src/client/javascript/dialogs/error.js:138-140 | a template `pre%TITLE%mid%BODY%post` with no `%` in `pre` and `mid` becomes `pre`, encoded title, `mid`, encoded text, `post` |
| ErrorDialog.UrlSharedPercent | src/client/javascript/dialogs/error.js:138-140 | the template `%TITLE%BODY%BODY%` gives the encoded title, `BODY`, and the encoded text |
| ErrorDialog.UrlBodyMisplaced | src/client/javascript/dialogs/error.js:138-140 | with template `%BO%TITLE%%BODY%` and title "DY" the encoded text replaces the `%BODY%` formed by the title and "BODY%" is left over |
| ErrorDialog.IssueTemplateFilled | src/client/javascript/dialogs/error.js:138-140 | with the template `https://x/new?title=%TITLE%&body=%BODY%` no placeholder is left in the URL |
| ErrorDialog.QuotedReportUrl | src/client/javascript/dialogs/error.js:115-140 | for a "Save failed" message, a trace and the usual template, the button opens `https://x/new?title=` + encoded title + `&body=` + encoded text, the text decodes back, quotes "> Save failed" and ends with the trace block |
| ErrorDialog.SaveFailedScenario | src/client/javascript/dialogs/error.js:55-140 | a "Save failed" error whose exception has only a stack: the stack is the trace, the window is tall, nothing is hidden, the button opens the filled template, the text decodes back, quotes "> Save failed" and ends with the fenced stack |
| UriEncoding.EncodeUriComponent | src/client/javascript/dialogs/error.js:139-140 | every `%` of the encoding starts a two-digit hexadecimal escape and every other character is unreserved; the encoding is at least as long as the input |
| UriEncoding.EncodeKeepsUnreserved | src/client/javascript/dialogs/error.js:139-140 | a string made only of unreserved characters is its own encoding |
| UriEncoding.EncodeEscapesReserved | src/client/javascript/dialogs/error.js:139-140 | a string with a character that is not unreserved grows by at least two characters when encoded |
| UriEncoding.EncodeIdentityIff | src/client/javascript/dialogs/error.js:139-140 | the encoding leaves a string unchanged if and only if every one of its characters is unreserved |
| UriEncoding.EncodeConcat | src/client/javascript/dialogs/error.js:139-140 | the encoding of a concatenation is the concatenation of the encodings, so each character is encoded on its own |
| UriEncoding.EncodeKeepsUnreservedAt | src/client/javascript/dialogs/error.js:139-140 | an unreserved character is copied verbatim wherever it stands, whatever else the string holds |
| UriEncoding.DecodeEncode | src/client/javascript/dialogs/error.js:139-140 | decoding the encoding of any string gives back that string |
| UriEncoding.DecodeLowerCaseEscape | src/client/javascript/dialogs/error.js:139-140 | the decoder reads `%2a` and `%2A` both as `*` and `%c3%A9` as `é`, and rejects the cut-off escape `%2` |
| UriEncoding.EncodeInjective | src/client/javascript/dialogs/error.js:139-140 | different titles or texts give different encodings |
| UriEncoding.EscapedAvoidsToken | src/client/javascript/dialogs/error.js:138-140 | an escaped string never contains a token that starts with `%` followed by something other than two hexadecimal digits |
| JsStrings.ReplaceFirst | src/client/javascript/dialogs/error.js:116 | `String.prototype.replace` with a string pattern, which replaces the first occurrence only; the definition carries no contract, and `ReplaceFirstSpec`, `ReplaceFirstAt` and `ReplaceFirstAbsent` state what it does |
| JsStrings.ReplaceFirstSpec | src/client/javascript/dialogs/error.js:116 | `replace` leaves a string without the pattern unchanged, and otherwise rewrites exactly the first occurrence |
| JsStrings.ReplaceFirstAt | src/client/javascript/dialogs/error.js:138-140 | with its first occurrence at `i`, `replace` keeps what is before and after and puts the replacement in place of that occurrence |
| JsStrings.ReplaceFirstAbsent | src/client/javascript/dialogs/error.js:138-140 | with no occurrence, `replace` changes nothing |
| JsStrings.Join | src/client/javascript/dialogs/error.js:140 | `Array.prototype.join`: the parts with the separator between neighbours; the definition carries no contract, and `JoinSnoc` and `JoinLength` state what it does |
| JsStrings.JoinSnoc | src/client/javascript/dialogs/error.js:133-140 | pushing a part and joining is joining, then the separator, then the part |
| JsStrings.JoinLength | src/client/javascript/dialogs/error.js:140 | joining n parts adds exactly n − 1 separators |
| JsStrings.Truthy | src/client/javascript/dialogs/error.js:57-133 | the truth test of `if ( … )` and `\|\|` on a string field: present and non-empty; the definition carries no contract of its own, and `TraceMessage`, `InitView` and `QuotedErrorUnknown` state what it decides |
| JsStrings.Render | src/client/javascript/dialogs/error.js:61-118 | string concatenation of a field: a truthy field is written as itself, and the result is empty exactly when the field is the empty string (a missing field reads "undefined") |
| JsStrings.Or | src/client/javascript/dialogs/error.js:62 | `a \|\| b` on strings: one of the two, the first whenever it is non-empty, and empty exactly when both are |
| JsStrings.IntToDecimal | src/client/javascript/dialogs/error.js:63 | the rendering of an integer is non-empty, starts with `-` exactly when the integer is negative, and is digits apart from that sign |
| JsStrings.IntToDecimalValue | src/client/javascript/dialogs/error.js:63 | the digits of an integer's rendering denote its magnitude: the whole rendering when it is not negative, the part after `-` when it is |
| JsStrings.NatToDecimal | src/client/javascript/dialogs/error.js:63 | the rendering of a line number is a non-empty string of digits without a leading zero |
| JsStrings.DecimalRoundTrip | src/client/javascript/dialogs/error.js:63 | the digits of the rendered line number denote that number |

## Left out

- `DialogWindow` is not part of this model: the window itself, its title, icon and width, `role="alertdialog"`, the message, summary and trace widgets, `scheme.find`, `parseMessage` and the callback. The model keeps only what `init` decides to hide.
- `window.open`, `console.error` and the `_sound` and `_soundVolume` fields are side effects with no bearing on the computed values.
- The navigator reads and the `forEach` that collects them are left out. The `JSON.stringify` of the collected fields is the opaque parameter `env`.
- `API.getConfig`, `API._` and `Utils.argumentDefaults` are not modelled. The configuration values they would supply are parameters.
- Configuration values are assumed to be strings. If `BugReporting.url` is unset, the `.replace` at line 138 throws a `TypeError`. So does the `.replace` at line 116 when `BugReporting.options.message` is unset and the issue option is on. An unset title would be encoded as the text "undefined". None of these cases is modelled.
- `$` patterns in the replacement string of `replace` are not modelled. Encoded values never contain `$` (`EncodedHasNoPlaceholder`). The version string is assumed to contain none.
- Lone UTF-16 surrogates cannot occur, because a Dafny `char` is a Unicode scalar value. `encodeURIComponent` throws `URIError` on them at run time.
- `RenderNumber`: only integral line numbers, written in plain decimal, are modelled. Fractions, very large values and `NaN` are not.
- Field values of a type other than string, or `null`, are not modelled. A field is a string (for `lineNumber`, an integral Number) or missing.
- `args.message` and `args.error` are likewise a string or missing. Other values, which JavaScript would convert to text with their own rules, are not modelled.
- Record fields the dialog does not read, and which fields count as own keys, are reduced to the flag `hasOwnKeys`.
- `UrlTitleFirst`, `UrlTitleOnly`: a template whose text before its first `%TITLE%` ends in a proper prefix of `%BODY%` (`%`, `%B`, …, `%BODY`) is not characterised. There the result depends on how the encoded title begins, as `UrlBodyMisplaced` shows for one case. Every other placement is covered by one of the URL lemmas:
  - `UrlTitleFirst`: the title comes first, including a `%BODY%` that shares the title's closing `%`;
  - `UrlBodyFirst`: the body comes first and ends before the title starts. A `%BODY%` that starts before a `%TITLE%` and runs into it must share the title's opening `%`, because its `B`, `O`, `D` and `Y` cannot match a `%`. The text before the title then ends in `%BODY`, which is the case above;
  - `UrlTitleOnly` and `UrlBodyOnly`: only one placeholder;
  - `UrlWithoutPlaceholders`: neither placeholder.
