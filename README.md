# JuneBug bug reports, modelled in Dafny

JuneBug is a React widget that lets a user file a bug report from inside a web page. This
project models the two files that do the work behind the widget:

- `src/utils/ConsoleCapture.ts` wraps `console.log/warn/error/info` and the page's
  `onerror` / `onunhandledrejection` handlers. Every wrapped call and every uncaught error
  appends an entry to a module-level buffer, which keeps only its last 100 entries. The
  file also formats entries as text (`prettyPrintString`, `parseLogMessage`,
  `prettyPrintLogsForEmail`) and as a Microsoft Teams Adaptive Card
  (`prettyPrintLogsContainersMSTeams`, `getTeamsChatURL`,
  `formatBugReport_AdaptiveCardJSON`).
- `src/components/JuneBugEmailer.ts` builds the raw `multipart/mixed` email of a report
  (`generateRawEmail` and its attachment builders). `sendEmailReport` then hands the email
  to a caller-supplied sender or posts it to the default endpoint.

The buffer is imperative in the source and stays imperative here. The module-level array
becomes the `LogBuffer` class, whose methods update a `logs` field; a ghost `history`
records every entry appended since the last clear. `CapturedLogs` is a class as in the
source. Everything else is pure and becomes datatypes, functions and lemmas.

Files:

- `log_model.dfy` holds the captured values, the entries and `parseLogMessage`.
- `console_capture.dfy` holds the buffer, the snapshots and the text formatters.
- `adaptive_card.dfy` holds the Teams card.
- `junebug_emailer.dfy` holds the email.

The JavaScript built-ins the code relies on are modelled in files of their own:

- `text.dfy`: `join`, `split`, decimal printing and the ASCII character classes of regular expressions. (`padStart(2, '0')` is `JuneBugEmailer.Pad`.)
- `utf8.dfy`: UTF-8 encoding.
- `base64.dfy`: base64, per RFC 4648, section 4.
- `uri_component.dfy`: `encodeURIComponent` and its inverse.
- `binary_string.dfy`: `unescape` and `btoa`.
- `format_key.dfy`: the three regular-expression replacements of `formatKey`.
- `mime.dfy`: the multipart framing of RFC 2046, section 5.1.1.

Some things the host computes are carried as data on each value and not recomputed:
`JSON.stringify(v, null, 2)`, `JSON.stringify(v)` and `String(v)`. Each `JSON.stringify`
rendering is a text, `undefined`, or a throw; `String(v)` is always a text (see "## Left out").

Three inputs come from the host: the clock, `Math.random` and the answer of the default
endpoint. They are parameters: the `Environment` record of the email, and `Response` of
`SendEmailReport`.

## Model

| member | source | states |
|---|---|---|
| `ConsoleCapture.Window` | src/utils/ConsoleCapture.ts:9-20 | what the buffer must hold: the last `min(n, 100)` entries of the history, as a suffix of it |
| `ConsoleCapture.WindowSnoc` | src/utils/ConsoleCapture.ts:14-20 | pushing one entry and shifting once the array exceeds 100 gives exactly the last 100 entries of the longer history |
| `ConsoleCapture.LogBuffer.constructor` | src/utils/ConsoleCapture.ts:9 | the buffer starts empty with an empty history |
| `ConsoleCapture.LogBuffer.Append` | src/utils/ConsoleCapture.ts:13-20 | a wrapped console call appends one entry of its type with the arguments in order; the oldest entry goes once there are more than 100; the buffer always equals the last 100 entries appended since the last clear |
| `ConsoleCapture.LogBuffer.Snapshot` | src/utils/ConsoleCapture.ts:67 | `getCapturedLogs` returns a fresh snapshot holding the current entries |
| `ConsoleCapture.LogBuffer.Clear` | src/utils/ConsoleCapture.ts:69-71 | `clearCapturedLogs` empties the buffer and its history |
| `ConsoleCapture.LogBuffer.OnError` | src/utils/ConsoleCapture.ts:89-100 | an uncaught error appends exactly one Error entry holding the safe error |
| `ConsoleCapture.LogBuffer.OnUnhandledRejection` | src/utils/ConsoleCapture.ts:102-104 | an unhandled rejection appends exactly one Error entry holding the rejection reason |
| `ConsoleCapture.RuntimeErrorMessage` | src/utils/ConsoleCapture.ts:93-97 | without a string message the text is "Unknown runtime error"; with one it is `msg @ url:` followed by exactly `lineNo:columnNo` |
| `ConsoleCapture.SafeError` | src/utils/ConsoleCapture.ts:90-97 | the logged value is always an Error: the one handed over if it is an Error, else a new Error carrying the synthesized message |
| `ConsoleCapture.CapturedLogs.constructor` | src/utils/ConsoleCapture.ts:28-30 | a snapshot holds the entries it is given |
| `ConsoleCapture.CapturedLogs.PrettyPrintString` | src/utils/ConsoleCapture.ts:32-56 | `prettyPrintString` prints the snapshot's entries, and throws exactly when the indented stringify of some argument throws |
| `ConsoleCapture.CapturedLogs.ToArray` | src/utils/ConsoleCapture.ts:58-60 | a copy equal to the entries |
| `ConsoleCapture.CapturedLogs.Clear` | src/utils/ConsoleCapture.ts:62-64 | the snapshot becomes empty |
| `ConsoleCapture.SnapshotOutlivesChanges` | src/utils/ConsoleCapture.ts:67-71 | a snapshot keeps the entries it was taken with after the buffer is appended to and cleared |
| `ConsoleCapture.ClearingSnapshotKeepsBuffer` | src/utils/ConsoleCapture.ts:62-67 | clearing a snapshot leaves the buffer unchanged, because the snapshot holds a copy |
| `ConsoleCapture.PrettyPart` | src/utils/ConsoleCapture.ts:42-49 | an Error prints as `name: message` and its stack on the next line; a string prints verbatim; anything else prints as indented JSON (`undefined` as ""); the result is missing iff the stringify throws |
| `ConsoleCapture.PrettyParts` | src/utils/ConsoleCapture.ts:42-50 | one printed text per argument, in order; none iff some argument throws |
| `ConsoleCapture.PrettyEntry` | src/utils/ConsoleCapture.ts:35-53 | one entry as `[timestamp] PREFIX ` and its printed arguments joined by a line break and four spaces; `PrettyPrintSingle` states its head |
| `ConsoleCapture.PrettyEntries` | src/utils/ConsoleCapture.ts:33-54 | one text per entry, in order; none iff some entry throws |
| `ConsoleCapture.PrettyPrint` | src/utils/ConsoleCapture.ts:32-56 | the whole text exists iff no argument of any entry throws |
| `ConsoleCapture.PrettyPrintSingle` | src/utils/ConsoleCapture.ts:52-55 | one entry prints as itself and starts with `[timestamp] PREFIX ` |
| `ConsoleCapture.PrettyPrintSnoc` | src/utils/ConsoleCapture.ts:33-55 | a later entry is printed after all earlier ones, separated by a blank line |
| `ConsoleCapture.EntryText` | src/utils/ConsoleCapture.ts:118-125 | an entry's text for the email and the card; `EntryTextShape` states its head and that it is never empty |
| `ConsoleCapture.EntryTextShape` | src/utils/ConsoleCapture.ts:119-125 | an entry's text starts with `[timestamp] PREFIX` and a line break, so it is never empty; a single string argument follows verbatim |
| `ConsoleCapture.PrettyPrintLogsForEmail` | src/utils/ConsoleCapture.ts:106-131 | undefined iff the logs are missing or empty; otherwise one text per entry, in order |
| `LogModel.ParseLogMessage` | src/utils/ConsoleCapture.ts:73-87 | an Error gives its stack, a string itself, anything else its indented JSON, or `String(v)` when the stringify throws; the result is undefined exactly when the stringify gives undefined |
| `AdaptiveCard.PrettyPrintLogsContainersMSTeams` | src/utils/ConsoleCapture.ts:133-175 | one container per entry, in order, with id key+index, the style of its type and full bleed; it holds the entry's text, which is never empty, so the space fallback never applies |
| `AdaptiveCard.ContainerIdsDistinct` | src/utils/ConsoleCapture.ts:159 | different indices give different container ids |
| `AdaptiveCard.GetTeamsChatURL` | src/utils/ConsoleCapture.ts:177-189 | no link iff the email is missing or empty; the link is the base URL with the encoded email, plus `&message=` and the encoded message iff a message is given |
| `AdaptiveCard.ChatUrlCarriesEmail` | src/utils/ConsoleCapture.ts:184 | the `users` parameter has no `&` and decodes back to the email |
| `AdaptiveCard.CardBodyOrder` | src/utils/ConsoleCapture.ts:207-255 | the body is, in order: the title; the screenshot link iff a URL is given, a single action, titled with the picture emoji and "View screenshot", that opens that URL, else the placeholder; the chat link iff the reporter has an email, and then it opens `GetTeamsChatURL(email)` under the title "Chat with" and the full name; else the reporter text or the placeholder; one full-bleed container per log, holding that entry's text in monospace, or the "No stack trace provided." block |
| `AdaptiveCard.FormatBugReportCard` | src/utils/ConsoleCapture.ts:191-270 | the card's tree before its final stringify; `CardBodyOrder` and `CardToggleTargetsContainers` state its body and actions |
| `AdaptiveCard.CardToggleTargetsContainers` | src/utils/ConsoleCapture.ts:256-266 | there is a toggle action iff there are logs; its targets are exactly the ids of the log containers in the body, in order, pairwise distinct |
| `JuneBugEmailer.Subject` | src/components/JuneBugEmailer.ts:45-47 | the subject line's text; `SubjectShape` states it |
| `JuneBugEmailer.SubjectShape` | src/components/JuneBugEmailer.ts:45-47 | the subject starts with the prefix (default "JuneBug Report"); it goes on past the prefix iff a non-empty app name is given, and then with ` - ` and the name |
| `JuneBugEmailer.BoundaryInjective` | src/components/JuneBugEmailer.ts:48 | emails generated at different milliseconds have different boundaries |
| `JuneBugEmailer.RandomSuffix` | src/components/JuneBugEmailer.ts:49 | `substring(2, 6)` with clamping: at most 4 characters; characters 2 to 5 when the text has at least 6; every character from index 2 on when it has 3 to 5; empty when it has at most 2 |
| `JuneBugEmailer.Pad` | src/components/JuneBugEmailer.ts:80 | the padded text is all digits and reads back as the number; it has exactly two digits below 100 |
| `JuneBugEmailer.Timestamp` | src/components/JuneBugEmailer.ts:80-81 | the file-name timestamp; `TimestampFields` states its layout and that each field reads back |
| `JuneBugEmailer.TimestampFields` | src/components/JuneBugEmailer.ts:81 | the timestamp is the year, then month, day, hours, minutes and seconds at fixed offsets with their separators; each field is two digits and reads back as its value (the month counted from 1) |
| `JuneBugEmailer.FileNamesDiffer` | src/components/JuneBugEmailer.ts:82 | the console-log and custom-log attachments never share a file name, whatever the times and random suffixes of the two |
| `JuneBugEmailer.CustomValueText` | src/components/JuneBugEmailer.ts:112 | a string prints as itself and any other non-object as `String(v)`; an object (an Error included) prints as its compact JSON, or as `undefined` when the stringify gives undefined; it throws iff that stringify throws |
| `JuneBugEmailer.CustomLogLines` | src/components/JuneBugEmailer.ts:111-113 | one `key: value` line per entry, in order; it throws iff some value throws |
| `JuneBugEmailer.CustomLogPresence` | src/components/JuneBugEmailer.ts:106-115 | the custom log is present iff the object is truthy and its lines do not throw; it throws iff some value throws; its details are the lines joined by line breaks |
| `JuneBugEmailer.ReporterLines` | src/components/JuneBugEmailer.ts:140-141 | one `Formatted Key: value` line per reporter entry, in order |
| `JuneBugEmailer.FormatReporterBlock` | src/components/JuneBugEmailer.ts:131-145 | null unless the reporter is a non-null object, else the heading and the lines; `ReporterBlockLines` states that the lines read back |
| `JuneBugEmailer.ReporterBlockLines` | src/components/JuneBugEmailer.ts:131-145 | the block is the User Info heading followed by the reporter lines; when no key or value holds a line break, splitting after the heading gives the lines back |
| `JuneBugEmailer.FullBody` | src/components/JuneBugEmailer.ts:56 | the body text; `FullBodyShape` states it |
| `JuneBugEmailer.FullBodyShape` | src/components/JuneBugEmailer.ts:55-56 | the body is the message alone without a reporter; with one it is the message, a blank line and the heading |
| `JuneBugEmailer.GenerateRawEmail` | src/components/JuneBugEmailer.ts:44-71 | the raw email as the code writes it; `GenerateRawEmailIsMultipart` states what it is |
| `JuneBugEmailer.GenerateRawEmailIsMultipart` | src/components/JuneBugEmailer.ts:44-71 | the email text is framed as a multipart message: the headers, which declare the boundary used throughout; then the body part, the present attachments (screenshot, console logs, custom log) and the close-delimiter; it throws iff the custom log throws. Framing is not parsing: see "## Left out" |
| `JuneBugEmailer.AttachmentOrder` | src/components/JuneBugEmailer.ts:69 | the attachments come in the fixed order screenshot, console logs, custom log, each present iff its input is |
| `JuneBugEmailer.ScreenshotPart` | src/components/JuneBugEmailer.ts:93-104 | present iff a non-empty screenshot is given; png headers; content is the screenshot without its data-URL prefix |
| `JuneBugEmailer.LogPart` | src/components/JuneBugEmailer.ts:73-91 | present iff there is at least one log; named by the local time and the suffix; its content is exactly the base64 of the UTF-8 bytes of the logs joined by blank lines, and decodes back to them |
| `JuneBugEmailer.CustomLogPart` | src/components/JuneBugEmailer.ts:106-129 | present iff there are details; its content is exactly the base64 of their UTF-8 bytes, and decodes back to them |
| `JuneBugEmailer.BuildScreenshotAttachment` | src/components/JuneBugEmailer.ts:93-104 | the screenshot attachment as the code writes it; `ScreenshotBuilderIsEncapsulation` and `ScreenshotPart` state it |
| `JuneBugEmailer.BuildLogAttachment` | src/components/JuneBugEmailer.ts:73-91 | the log attachment as the code writes it; `LogBuilderIsEncapsulation` and `LogPart` state it |
| `JuneBugEmailer.BuildCustomLogObject` | src/components/JuneBugEmailer.ts:106-129 | the custom-log attachment as the code writes it, or the throw; `CustomLogBuilderIsEncapsulation`, `CustomLogPresence` and `CustomLogPart` state it |
| `JuneBugEmailer.ScreenshotBuilderIsEncapsulation` | src/components/JuneBugEmailer.ts:93-104 | `buildScreenshotAttachment` writes exactly the encapsulation of the screenshot part |
| `JuneBugEmailer.LogBuilderIsEncapsulation` | src/components/JuneBugEmailer.ts:73-91 | `buildLogAttachment` writes exactly the encapsulation of the log part |
| `JuneBugEmailer.CustomLogBuilderIsEncapsulation` | src/components/JuneBugEmailer.ts:106-129 | `buildCustomLogObject` writes exactly the encapsulation of the custom-log part |
| `JuneBugEmailer.FilterTruthy` | src/components/JuneBugEmailer.ts:69 | `filter(Boolean)` drops null and empty texts; `FilterTruthyEncapsulations` states the result |
| `JuneBugEmailer.FilterTruthyEncapsulations` | src/components/JuneBugEmailer.ts:69 | `filter(Boolean).join('')` over the attachment texts gives the encapsulations of the present parts, in order |
| `JuneBugEmailer.StripDataUrlPrefix` | src/components/JuneBugEmailer.ts:95 | the anchored, non-global `replace`; `StripRemovesOnlyOnePrefix`, `StripIdempotentUnlessDoublyPrefixed` and `ScreenshotPrefixIrrelevant` state it |
| `JuneBugEmailer.ScreenshotPrefixIrrelevant` | src/components/JuneBugEmailer.ts:95 | a bare base64 screenshot and the same screenshot with the data-URL prefix give the same part |
| `JuneBugEmailer.StripIdempotentUnlessDoublyPrefixed` | src/components/JuneBugEmailer.ts:95 | stripping twice equals stripping once, unless the text carries the prefix twice |
| `JuneBugEmailer.StripRemovesOnlyOnePrefix` | src/components/JuneBugEmailer.ts:95 | only one leading prefix is removed: a doubly prefixed text keeps its second prefix |
| `JuneBugEmailer.SendEmailReport` | src/components/JuneBugEmailer.ts:16-42 | it throws iff building the email throws, or there is no override and the answer is not ok (with the status and text in the message); the override receives exactly the raw email; otherwise the raw email goes to the endpoint as JSON |
| `FormatKey.Format` | src/components/JuneBugEmailer.ts:134-138 | position by position, the result is the key with a space after each character that starts a camel pair (`SpaceCamelPairs`), each underscore turned into a space, each word start upper-cased, and every other character kept in its own case; it keeps the key's characters in order up to case, once spaces and underscores are dropped (`Squash`); it has one space per space or underscore of the key and one per camel pair (`Gaps`, `CamelPairs`); it has no underscore, no lower-case letter or digit directly before an upper-case letter, and no word starting in lower case |
| `FormatKey.SplitCamelCase` | src/components/JuneBugEmailer.ts:136 | the first `replace`, matching left to right without overlap; what it keeps and inserts is stated by `SplitCamelCaseSpacesPairs`, `SplitCamelCaseAddsOnlySpaces`, `SplitCamelCaseKeepsKey` and `SplitCamelCaseNoCamelPair` |
| `FormatKey.SpaceCamelPairs` | src/components/JuneBugEmailer.ts:136 | what the first replacement is meant to do, one character at a time: a space after each character that starts a camel pair; dropping the spaces gives the key back, and the text grows by one per camel pair |
| `FormatKey.SplitCamelCaseSpacesPairs` | src/components/JuneBugEmailer.ts:136 | the left-to-right, non-overlapping replacement is exactly `SpaceCamelPairs`: every space it adds sits between a lower-case letter or digit and the upper-case letter after it, and no camel pair is missed |
| `FormatKey.SplitCamelCaseAddsOnlySpaces` | src/components/JuneBugEmailer.ts:136 | the first replacement only adds spaces: with spaces dropped the text is the key, in order and in its own case |
| `FormatKey.LastTwoPasses` | src/components/JuneBugEmailer.ts:137-138 | after the second and third replacements, position by position, an underscore is a space, a word start is upper-cased and every other character keeps its case |
| `FormatKey.SplitCamelCaseKeepsKey` | src/components/JuneBugEmailer.ts:136 | the first replacement keeps the key's characters in order up to case once spaces and underscores are dropped, and its spaces and underscores number those of the key plus one per camel pair; where the spaces go is `SplitCamelCaseSpacesPairs` |
| `FormatKey.ReplaceUnderscores` | src/components/JuneBugEmailer.ts:137 | same length; every underscore becomes a space and every other character stays |
| `FormatKey.CapitalizeWords` | src/components/JuneBugEmailer.ts:138 | same length; the character at each word start is upper-cased and every other character stays |
| `FormatKey.SplitCamelCaseNoCamelPair` | src/components/JuneBugEmailer.ts:136 | after the first replacement no camel pair remains |
| `FormatKey.CapitalizeWordsProperties` | src/components/JuneBugEmailer.ts:138 | capitalising word starts keeps the word structure and leaves no word starting in lower case |
| `FormatKey.FormatIdempotent` | src/components/JuneBugEmailer.ts:134-138 | formatting a formatted key changes nothing |
| `FormatKey.FormatCamelCaseExample` | src/components/JuneBugEmailer.ts:134-138 | `fullName` becomes `Full Name` |
| `FormatKey.FormatSnakeCaseExample` | src/components/JuneBugEmailer.ts:134-138 | `short_name` becomes `Short Name` |
| `Mime.MultipartEndsWithCloseDelimiter` | src/components/JuneBugEmailer.ts:70 | a message with at least one part ends with the close-delimiter |
| `Mime.FramedAsEncapsulations` | src/components/JuneBugEmailer.ts:64-70 | the parts, each followed by a delimiter, are the same text as the encapsulations of the parts followed by a delimiter |
| `BinaryString.Utf8Base64` | src/components/JuneBugEmailer.ts:77 | `btoa(unescape(encodeURIComponent(text)))` never throws; it is the base64 of the UTF-8 bytes of the text and decodes back to the text |
| `BinaryString.Unescape` | src/components/JuneBugEmailer.ts:77 | `unescape` of Annex B.2.1.2 of ECMAScript; `UnescapeEncodeURIComponent` states it on encoded text |
| `BinaryString.Btoa` | src/components/JuneBugEmailer.ts:77 | `btoa`, None where it throws; `Utf8Base64` states that it never throws here |
| `BinaryString.UnescapeEncodeURIComponent` | src/components/JuneBugEmailer.ts:115 | `unescape(encodeURIComponent(s))` is the UTF-8 encoding of `s`, one code unit per byte |
| `Base64.Encode` | src/components/JuneBugEmailer.ts:77 | the output has four characters per started group of three bytes, all from the base64 alphabet or `=` |
| `Base64.DecodeEncode` | src/components/JuneBugEmailer.ts:115 | decoding the base64 of some bytes gives those bytes back |
| `UriComponent.Encode` | src/utils/ConsoleCapture.ts:184-186 | `encodeURIComponent`; `DecodeEncode` and `EncodeAlphabet` state it |
| `UriComponent.DecodeEncode` | src/utils/ConsoleCapture.ts:184-186 | decoding `encodeURIComponent(s)` gives `s` back |
| `UriComponent.EncodeAlphabet` | src/utils/ConsoleCapture.ts:184-186 | `encodeURIComponent` writes only unescaped characters and `%`, so no `&`: a parameter ends where the next begins |
| `Utf8.DecodeEncode` | src/components/JuneBugEmailer.ts:77 | decoding the UTF-8 encoding of a text gives the text back |

## Left out

- The forwarding of each wrapped console call to the original method (ConsoleCapture.ts:21) is output to the host, which the model does not have.
- The one-time installation of the wrappers and of the two window handlers (ConsoleCapture.ts:11-12, 89, 102) is not modelled. The model starts from an installed buffer.
- `new Date().toISOString()` is a parameter of `Append`. The clock is not modelled.
- The host's renderings of a value are data carried on the value: `JSON.stringify` with and without indentation, and `String(v)`. They are not recomputed, because property enumeration and number printing are outside the model.
- The final `JSON.stringify(adaptiveCard, null, 2)` (ConsoleCapture.ts:271) is not modelled. Every card property is stated on the card's tree.
- `fetch`, the JSON encoding of `{ rawEmail }` and the asynchronous behaviour of `sendEmailReport` are not modelled. `SendEmailReport` returns where the raw email goes, and takes the endpoint's answer as a parameter. A throw inside the caller's override is not modelled.
- `Date.now()`, `Math.random().toString(36)` and the local-time getters are parameters (`Environment`). Years are natural numbers: negative years are not modelled.
- `ConsoleCapture.CapturedLogs.PrettyPrintString`: the source's type says it returns a string. It can throw, because its `JSON.stringify` is unguarded, so the model returns an Option.
- `LogModel.ParseLogMessage`: it returns `undefined` where `JSON.stringify` does (for a function or `undefined`), not always a string. `join` then prints it as the empty string.
- Strings are sequences of Unicode scalar values, so lone surrogates cannot be represented. For the email this means two things: `encodeURIComponent` never throws a URIError, and `unescape`'s `%u` form never arises from it.
- `LogModel.ParseLogMessage`, `JuneBugEmailer.TemplateText`, `JuneBugEmailer.CustomValueText` and `AdaptiveCard.UserBlock` take `String(v)` and template coercion (`${v}`) as always giving a text. In JavaScript they throw a TypeError for a Symbol and for an object without a usable `toString`/`valueOf`, such as `Object.create(null)`. So the model does not capture that `parseLogMessage` (ConsoleCapture.ts:85), `formatReporterBlock` (JuneBugEmailer.ts:141) and the card's user block (ConsoleCapture.ts:237, 244) can throw.
- `JuneBugEmailer.GenerateRawEmailIsMultipart` states how the email is framed, not that a reader recovers its parts. RFC 2046, section 5.1.1 requires that the delimiter occur in no part. The code does not keep `\n--Boundary_<ms>` out of the message, the reporter values or the screenshot text (JuneBugEmailer.ts:56, 68, 95, 103). When one of them holds it, the same text also frames other parts. The base64 attachments cannot hold it, because their alphabet has no line break.
- `AdaptiveCard.FormatBugReportCard` takes the logs as a sequence. In the source, an undefined or null `consoleLogs` passes the `consoleLogs?.length` guard of line 248 but throws a TypeError at `consoleLogs.length` on line 256. The model does not capture that throw.
- `ConsoleCapture.CapturedLogs.constructor` and `ConsoleCapture.SnapshotOutlivesChanges` treat the entries as values, so aliasing is not modelled. In the source the constructor keeps the caller's array (ConsoleCapture.ts:29), and `clear()` (line 63) empties that array too. Only the copy in `getCapturedLogs` (line 67) hides this. Logged arguments are live references that are stringified only when printed (lines 42-49, 121-124), so changing an object after logging it changes what an earlier snapshot prints. The model fixes each value's renderings at capture time. `SnapshotOutlivesChanges` therefore holds for the list of entries, not for the objects they refer to.
- `JuneBugEmailer.StripIdempotentUnlessDoublyPrefixed` is weaker than unconditional idempotence of the screenshot clean-up. That stronger property does not hold: `StripRemovesOnlyOnePrefix` shows that a doubly prefixed screenshot keeps one prefix.
- `JuneBugEmailer.ScreenshotPrefixIrrelevant` requires the bare screenshot to be base64 text. Without that, a bare text that itself starts with the prefix loses it.
- `JuneBugEmailer.CustomLogPresence`: the custom-log attachment is present whenever the object is truthy, even when it has no entries. It then holds an empty text.
- `reporter` and `customLogObject` are taken as their `Object.entries`, in order. Property enumeration order is the host's.
- The React components (`JuneBug.tsx`, `JuneBugPopup.tsx`), the demo and the build configuration are not part of this model.
- Line breaks are LF as the code writes them, not the CRLF of RFC 5322. The model does not check RFC 5322 line-length limits.
