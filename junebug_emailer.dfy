/**
 * The raw email a bug report is sent as: `generateRawEmail` and its helpers, and the choice
 * `sendEmailReport` makes between a caller-supplied sender and the default endpoint.
 *
 * The email is a `multipart/mixed` message (RFC 2046, section 5.1) with a plain-text body
 * part and up to three base64 attachments -- the screenshot, the console logs, the custom
 * log object, always in that order. Lines end in LF, as the code writes them.
 */
module JuneBugEmailer {
  import opened Wrappers
  import opened Text
  import opened LogModel
  import Mime
  import FormatKey
  import BinaryString
  import Base64
  import Utf8

  const FromEmail := "donotreply@junebugreports.com"
  const FromName := "JuneBug"
  const Endpoint := "https://tesseract-api.com/v1/email/send-mail-post"
  const DefaultSubjectPrefix := "JuneBug Report"
  const ScreenshotPrefix := "data:image/png;base64,"
  const UserInfoHeading := "--------User Info--------\n\n"
  const StringifyError := "TypeError: JSON.stringify threw"

  /**
   * `SendEmailOptions`. Optional fields are None when undefined; for `screenshotBase64`
   * also when null. `reporter` is None unless it is a non-null object, and
   * `customLogObject` is None unless it is truthy; when present each holds its
   * `Object.entries`, in order.
   */
  datatype EmailOptions = EmailOptions(
    to: string,
    message: string,
    logs: Option<seq<string>>,
    screenshotBase64: Option<string>,
    reporter: Option<seq<(string, Value)>>,
    appName: Option<string>,
    subjectPrefix: Option<string>,
    customLogObject: Option<seq<(string, Value)>>)

  /** The local-time getters of `new Date()`: the year, the month from 0, the day of the month, the time of day. */
  datatype LocalTime = LocalTime(year: nat, monthIndex: nat, date: nat, hours: nat, minutes: nat, seconds: nat)

  predicate ValidTime(t: LocalTime)
  {
    t.monthIndex < 12 && 1 <= t.date <= 31 && t.hours < 24 && t.minutes < 60 && t.seconds < 60
  }

  /** What `generateRawEmail` reads from the host: `Date.now()`, `Math.random().toString(36)`, `new Date()`. */
  datatype Environment = Environment(nowMillis: nat, randomBase36: string, now: LocalTime)

  // ---------------------------------------------------------------- subject, boundary, names

  /** `appName ? `${subjectPrefix} - ${appName}` : subjectPrefix`, the prefix defaulting when undefined. */
  function Subject(subjectPrefix: Option<string>, appName: Option<string>): string
  {
    var prefix := subjectPrefix.GetOr(DefaultSubjectPrefix);
    if appName.Some? && appName.value != "" then prefix + " - " + appName.value else prefix
  }

  /**
   * The subject starts with the prefix ("JuneBug Report" when none is given) and goes on
   * past it exactly when a non-empty app name is given, with " - " and that name.
   */
  lemma SubjectShape(subjectPrefix: Option<string>, appName: Option<string>)
    ensures var prefix := if subjectPrefix.Some? then subjectPrefix.value else "JuneBug Report";
            var s := Subject(subjectPrefix, appName);
            && StartsWith(s, prefix)
            && (|s| > |prefix| <==> appName.Some? && appName.value != "")
            && (|s| > |prefix| ==> s[|prefix|..] == " - " + appName.value)
  {
    var prefix := subjectPrefix.GetOr(DefaultSubjectPrefix);
    var s := Subject(subjectPrefix, appName);
    if appName.Some? && appName.value != "" {
      assert s == prefix + (" - " + appName.value);
      assert s[..|prefix|] == prefix;
    }
  }

  /** `Boundary_${Date.now()}` */
  function Boundary(nowMillis: nat): string
  {
    "Boundary_" + NatToString(nowMillis)
  }

  /** Emails generated at different milliseconds have different boundaries. */
  lemma BoundaryInjective(m: nat, n: nat)
    requires m != n
    ensures Boundary(m) != Boundary(n)
  {
    if Boundary(m) == Boundary(n) {
      assert Boundary(m)[9..] == NatToString(m);
      assert Boundary(n)[9..] == NatToString(n);
      NatToStringInjective(m, n);
    }
  }

  /** `.substring(2, 6)`, whose bounds are clamped to the length. */
  function RandomSuffix(randomBase36: string): (s: string)
    ensures |s| <= 4
    ensures |randomBase36| >= 6 ==> s == randomBase36[2..6]
    ensures |randomBase36| <= 2 ==> s == ""
    ensures 2 < |randomBase36| < 6 ==> s == randomBase36[2..]
  {
    var n := |randomBase36|;
    randomBase36[(if n < 2 then n else 2)..(if n < 6 then n else 6)]
  }

  /** `n.toString().padStart(2, '0')` */
  function Pad(n: nat): (s: string)
    ensures AllDigits(s) && DecimalValue(s) == n
    ensures n < 100 ==> |s| == 2
  {
    var d := NatToString(n);
    DecimalValueOfNatToString(n);
    if |d| < 2 then
      var s := "0" + d;
      assert s[..|s| - 1] == "0" && s[|s| - 1] == d[0];
      assert DecimalValue("0") == 0 by { assert "0"[..0] == ""; }
      assert d[..0] == "";
      s
    else d
  }

  /** `YYYY-MM-DD_HH-mm-ss`, the year as it prints, every other field padded to two digits. */
  function Timestamp(t: LocalTime): string
  {
    NatToString(t.year) + ("-" + (Pad(t.monthIndex + 1) + ("-" + (Pad(t.date) + ("_" + (Pad(t.hours)
      + ("-" + (Pad(t.minutes) + ("-" + Pad(t.seconds))))))))))
  }

  /** A separator and a two-character field at offset `k`, followed by `rest`. */
  lemma FieldAt(ts: string, k: nat, sep: char, field: string, rest: string)
    requires |field| == 2 && k <= |ts| && ts[k..] == [sep] + (field + rest)
    ensures k + 3 <= |ts| && ts[k] == sep && ts[k + 1..k + 3] == field && ts[k + 3..] == rest
  {
    assert ts[k] == ts[k..][0];
    assert ts[k + 1..k + 3] == ts[k..][1..3];
    assert ts[k + 3..] == ts[k..][3..];
  }

  /** The layout `y-mo-d_h-mi-se` of five two-character fields after a year. */
  lemma FieldLayout(y: string, mo: string, d: string, h: string, mi: string, se: string)
    requires |mo| == 2 && |d| == 2 && |h| == 2 && |mi| == 2 && |se| == 2
    ensures var ts := y + ("-" + (mo + ("-" + (d + ("_" + (h + ("-" + (mi + ("-" + se)))))))));
            var k := |y|;
            && |ts| == k + 15
            && ts[..k] == y
            && ts[k] == '-' && ts[k + 3] == '-' && ts[k + 6] == '_' && ts[k + 9] == '-' && ts[k + 12] == '-'
            && ts[k + 1..k + 3] == mo && ts[k + 4..k + 6] == d && ts[k + 7..k + 9] == h
            && ts[k + 10..k + 12] == mi && ts[k + 13..k + 15] == se
  {
    var r5 := "-" + se;
    var r4 := "-" + (mi + r5);
    var r3 := "_" + (h + r4);
    var r2 := "-" + (d + r3);
    var r1 := "-" + (mo + r2);
    FieldsAt(y + r1, |y|, mo, d, h, mi, se, r1, r2, r3, r4, r5);
  }

  /** The five fields of `FieldLayout`, one `FieldAt` step each. */
  lemma FieldsAt(ts: string, k: nat, mo: string, d: string, h: string, mi: string, se: string,
                 r1: string, r2: string, r3: string, r4: string, r5: string)
    requires |mo| == 2 && |d| == 2 && |h| == 2 && |mi| == 2 && |se| == 2
    requires k <= |ts| && ts[k..] == r1
    requires r1 == "-" + (mo + r2) && r2 == "-" + (d + r3) && r3 == "_" + (h + r4)
    requires r4 == "-" + (mi + r5) && r5 == "-" + se
    ensures |ts| == k + 15
    ensures ts[k] == '-' && ts[k + 3] == '-' && ts[k + 6] == '_' && ts[k + 9] == '-' && ts[k + 12] == '-'
    ensures ts[k + 1..k + 3] == mo && ts[k + 4..k + 6] == d && ts[k + 7..k + 9] == h
    ensures ts[k + 10..k + 12] == mi && ts[k + 13..k + 15] == se
  {
    FieldAt(ts, k, '-', mo, r2);
    FieldAt(ts, k + 3, '-', d, r3);
    FieldAt(ts, k + 6, '_', h, r4);
    FieldAt(ts, k + 9, '-', mi, r5);
    assert r5 == ['-'] + (se + "");
    FieldAt(ts, k + 12, '-', se, "");
  }

  /**
   * Every field of the timestamp sits at a fixed offset after the year and reads back as
   * the value it came from: the month from 1, the day, hours, minutes and seconds, each as
   * exactly two digits.
   */
  lemma TimestampFields(t: LocalTime)
    requires ValidTime(t)
    ensures var ts := Timestamp(t);
            var k := |NatToString(t.year)|;
            && |ts| == k + 15
            && AllDigits(ts[..k]) && DecimalValue(ts[..k]) == t.year
            && ts[k] == '-' && ts[k + 3] == '-' && ts[k + 6] == '_' && ts[k + 9] == '-' && ts[k + 12] == '-'
            && AllDigits(ts[k + 1..k + 3]) && DecimalValue(ts[k + 1..k + 3]) == t.monthIndex + 1
            && AllDigits(ts[k + 4..k + 6]) && DecimalValue(ts[k + 4..k + 6]) == t.date
            && AllDigits(ts[k + 7..k + 9]) && DecimalValue(ts[k + 7..k + 9]) == t.hours
            && AllDigits(ts[k + 10..k + 12]) && DecimalValue(ts[k + 10..k + 12]) == t.minutes
            && AllDigits(ts[k + 13..k + 15]) && DecimalValue(ts[k + 13..k + 15]) == t.seconds
  {
    FieldLayout(NatToString(t.year), Pad(t.monthIndex + 1), Pad(t.date), Pad(t.hours), Pad(t.minutes), Pad(t.seconds));
    DecimalValueOfNatToString(t.year);
  }

  function LogFileName(now: LocalTime, randomSuffix: string): string
  {
    "console-logs-" + (Timestamp(now) + "-" + randomSuffix + ".txt")
  }

  function CustomLogFileName(now: LocalTime, randomSuffix: string): string
  {
    "custom-logs-" + (Timestamp(now) + "-" + randomSuffix + ".txt")
  }

  /** The two attachments built from text never share a file name, whatever their times and suffixes. */
  lemma FileNamesDiffer(now: LocalTime, randomSuffix: string, now': LocalTime, randomSuffix': string)
    ensures LogFileName(now, randomSuffix) != CustomLogFileName(now', randomSuffix')
  {
    PrefixesDiffer(Timestamp(now) + "-" + randomSuffix + ".txt", Timestamp(now') + "-" + randomSuffix' + ".txt");
  }

  /** The two file-name prefixes differ in their second character, so no two names can coincide. */
  lemma PrefixesDiffer(x: string, y: string)
    ensures "console-logs-" + x != "custom-logs-" + y
  {
    assert ("console-logs-" + x)[1] == 'o' && ("custom-logs-" + y)[1] == 'u';
  }

  // ---------------------------------------------------------------- attachments as the code builds them

  function BuildLogAttachment(logs: Option<seq<string>>, boundary: string, now: LocalTime, randomSuffix: string): Option<string>
  {
    if logs.None? || |logs.value| == 0 then None
    else
      var logText := Join(logs.value, "\n\n");
      var base64Log := BinaryString.Utf8Base64(logText);
      var filename := LogFileName(now, randomSuffix);
      Some("\n--" + boundary + "\n"
           + ("Content-Type: text/plain; name=\"" + filename + "\"") + "\n"
           + "Content-Transfer-Encoding: base64" + "\n"
           + ("Content-Disposition: attachment; filename=\"" + filename + "\"") + "\n"
           + "\n"
           + base64Log)
  }

  /** `base64.replace(/^data:image\/png;base64,/, '')`: one leading data-URL prefix comes off. */
  function StripDataUrlPrefix(s: string): string
  {
    if StartsWith(s, ScreenshotPrefix) then s[|ScreenshotPrefix|..] else s
  }

  function BuildScreenshotAttachment(base64: Option<string>, boundary: string): Option<string>
  {
    if base64.None? || base64.value == "" then None
    else
      var cleanBase64 := StripDataUrlPrefix(base64.value);
      Some("\n--" + boundary + "\n"
           + "Content-Type: image/png; name=\"screenshot.png\"" + "\n"
           + "Content-Transfer-Encoding: base64" + "\n"
           + "Content-Disposition: attachment; filename=\"screenshot.png\"" + "\n"
           + "\n"
           + cleanBase64)
  }

  /** `JSON.stringify(value)` in a template: `undefined` prints as "undefined"; a throw propagates. */
  function JsonInTemplate(j: Json): Result<string>
  {
    match j
    case JsonText(text) => Ok(text)
    case JsonUndefined => Ok("undefined")
    case JsonThrows => Thrown(StringifyError)
  }

  /** `typeof value === 'object' ? JSON.stringify(value) : value`, placed in a template. */
  function CustomValueText(v: Value): (r: Result<string>)
    ensures v.Str? ==> r == Ok(v.s)
    ensures v.Other? && !v.isObject ==> r == Ok(v.host.coerced)
    ensures r.Thrown? <==> !v.Str? && (v.Err? || v.isObject) && v.host.compact.JsonThrows?
    ensures (v.Err? || (v.Other? && v.isObject)) && !v.host.compact.JsonThrows? ==>
              r == Ok(if v.host.compact.JsonText? then v.host.compact.text else "undefined")
  {
    match v
    case Str(s) => Ok(s)
    case Err(_, _, _, host) => JsonInTemplate(host.compact)
    case Other(isObject, host) => if isObject then JsonInTemplate(host.compact) else Ok(host.coerced)
  }

  /** The `key: value` lines of the custom log; the first value whose stringify throws makes it throw. */
  function CustomLogLines(entries: seq<(string, Value)>): (r: Result<seq<string>>)
    ensures r.Thrown? <==> exists i :: 0 <= i < |entries| && CustomValueText(entries[i].1).Thrown?
    ensures r.Ok? ==> |r.value| == |entries|
    ensures r.Ok? ==> forall i :: 0 <= i < |entries| ==>
              r.value[i] == entries[i].0 + ": " + CustomValueText(entries[i].1).value
    decreases |entries|
  {
    if |entries| == 0 then Ok([])
    else
      match CustomValueText(entries[0].1)
      case Thrown(reason) => Thrown(reason)
      case Ok(text) =>
        match CustomLogLines(entries[1..])
        case Thrown(reason) =>
          assert exists i :: 0 <= i < |entries| && CustomValueText(entries[i].1).Thrown? by {
            var j :| 0 <= j < |entries[1..]| && CustomValueText(entries[1..][j].1).Thrown?;
            assert entries[1..][j] == entries[j + 1];
          }
          Thrown(reason)
        case Ok(rest) =>
          assert forall i :: 1 <= i < |entries| ==> entries[i] == entries[1..][i - 1];
          Ok([entries[0].0 + ": " + text] + rest)
  }

  /** `details`: the lines joined with "\n", or the throw. */
  function CustomLogDetails(customLog: Option<seq<(string, Value)>>): Result<Option<string>>
  {
    if customLog.None? then Ok(None)
    else
      match CustomLogLines(customLog.value)
      case Thrown(reason) => Thrown(reason)
      case Ok(lines) => Ok(Some(Join(lines, "\n")))
  }

  function BuildCustomLogObject(customLog: Option<seq<(string, Value)>>, boundary: string, now: LocalTime, randomSuffix: string): Result<Option<string>>
  {
    match CustomLogDetails(customLog)
    case Thrown(reason) => Thrown(reason)
    case Ok(None) => Ok(None)
    case Ok(Some(details)) =>
      var base64Log := BinaryString.Utf8Base64(details);
      var filename := CustomLogFileName(now, randomSuffix);
      Ok(Some("\n--" + boundary + "\n"
              + ("Content-Type: text/plain; name=\"" + filename + "\"") + "\n"
              + "Content-Transfer-Encoding: base64" + "\n"
              + ("Content-Disposition: attachment; filename=\"" + filename + "\"") + "\n"
              + "\n"
              + base64Log))
  }

  // ---------------------------------------------------------------- reporter block and body

  /** `${value}` */
  function TemplateText(v: Value): string
  {
    if v.Str? then v.s else v.host.coerced
  }

  function ReporterLines(entries: seq<(string, Value)>): (lines: seq<string>)
    ensures |lines| == |entries|
    ensures forall i :: 0 <= i < |entries| ==> lines[i] == FormatKey.Format(entries[i].0) + ": " + TemplateText(entries[i].1)
  {
    seq(|entries|, i requires 0 <= i < |entries| => FormatKey.Format(entries[i].0) + ": " + TemplateText(entries[i].1))
  }

  /** `formatReporterBlock`: null unless the reporter is a non-null object. */
  function FormatReporterBlock(reporter: Option<seq<(string, Value)>>): Option<string>
  {
    if reporter.None? then None
    else Some(UserInfoHeading + Join(ReporterLines(reporter.value), "\n"))
  }

  /**
   * The reporter block is the heading followed by one `Key: value` line per entry, in order:
   * when no key or value holds a line break, splitting after the heading gives the lines back.
   */
  lemma ReporterBlockLines(entries: seq<(string, Value)>)
    requires |entries| > 0
    requires forall i :: 0 <= i < |entries| ==> '\n' !in entries[i].0 && '\n' !in TemplateText(entries[i].1)
    ensures var block := FormatReporterBlock(Some(entries));
            && block.Some? && StartsWith(block.value, UserInfoHeading)
            && Split(block.value[|UserInfoHeading|..], '\n') == ReporterLines(entries)
  {
    var lines := ReporterLines(entries);
    assert forall i :: 0 <= i < |lines| ==> '\n' !in lines[i];
    SplitJoin(lines, '\n');
    var block := UserInfoHeading + Join(lines, "\n");
    assert block[..|UserInfoHeading|] == UserInfoHeading;
    assert block[|UserInfoHeading|..] == Join(lines, ['\n']);
  }

  /** `${message}${formattedReporter ? `\n\n${formattedReporter}` : ''}` */
  function FullBody(message: string, formattedReporter: Option<string>): string
  {
    message + (if formattedReporter.Some? && formattedReporter.value != "" then "\n\n" + formattedReporter.value else "")
  }

  /** The body text is the message alone without a reporter, and the message, a blank line and the user-info block with one. */
  lemma FullBodyShape(message: string, reporter: Option<seq<(string, Value)>>)
    ensures var body := FullBody(message, FormatReporterBlock(reporter));
            && (reporter.None? ==> body == message)
            && (reporter.Some? ==> StartsWith(body, message + "\n\n" + UserInfoHeading))
  {
    if reporter.Some? {
      var lines := Join(ReporterLines(reporter.value), "\n");
      assert FormatReporterBlock(reporter).value == UserInfoHeading + lines;
      BlockAfterMessage(message, "\n\n", UserInfoHeading, lines);
    }
  }

  /** A text followed by a separator and a block starts with the text, the separator and the block's heading. */
  lemma BlockAfterMessage(message: string, sep: string, heading: string, rest: string)
    ensures StartsWith(message + (sep + (heading + rest)), message + sep + heading)
  {
    var b := message + (sep + (heading + rest));
    assert b == (message + sep + heading) + rest;
    assert b[..|message + sep + heading|] == message + sep + heading;
  }

  // ---------------------------------------------------------------- the email

  /** `[...].filter(Boolean)`: null and the empty string are dropped. */
  function FilterTruthy(xs: seq<Option<string>>): (ys: seq<string>)
    ensures |ys| <= |xs|
    decreases |xs|
  {
    if |xs| == 0 then []
    else (if xs[0].Some? && xs[0].value != "" then [xs[0].value] else []) + FilterTruthy(xs[1..])
  }

  function GenerateRawEmail(options: EmailOptions, env: Environment): Result<string>
  {
    var subject := Subject(options.subjectPrefix, options.appName);
    var boundary := Boundary(env.nowMillis);
    var randomFileNameSuffix := RandomSuffix(env.randomBase36);
    var logAttachment := BuildLogAttachment(options.logs, boundary, env.now, randomFileNameSuffix);
    match BuildCustomLogObject(options.customLogObject, boundary, env.now, randomFileNameSuffix)
    case Thrown(reason) => Thrown(reason)
    case Ok(customLogAttachment) =>
      var screenshotAttachment := BuildScreenshotAttachment(options.screenshotBase64, boundary);
      var fullBody := FullBody(options.message, FormatReporterBlock(options.reporter));
      Ok(("From: \"" + FromName + "\" <" + FromEmail + ">") + "\n"
         + ("To: " + options.to) + "\n"
         + ("Subject: " + subject) + "\n"
         + "MIME-Version: 1.0" + "\n"
         + ("Content-Type: multipart/mixed; boundary=\"" + boundary + "\"") + "\n"
         + "\n"
         + "--" + boundary + "\n"
         + "Content-Type: text/plain; charset=\"UTF-8\"" + "\n"
         + "Content-Transfer-Encoding: 7bit" + "\n"
         + "\n"
         + fullBody + "\n"
         + Concat(FilterTruthy([screenshotAttachment, logAttachment, customLogAttachment])) + "\n"
         + "--" + boundary + "--")
  }

  /** Where `sendEmailReport` sends the raw email. */
  datatype Delivery =
    | Override(rawEmail: string)
    | DefaultPost(url: string, contentType: string, rawEmail: string)

  /** What the default endpoint answers: `response.ok`, `response.status` and `response.text()`. */
  datatype Response = Response(ok: bool, status: nat, text: string)

  /**
   * `sendEmailReport`: with an override, the override receives the raw email and no request
   * is made; without one, the raw email is posted as JSON to the default endpoint, and an
   * answer that is not ok makes the call throw with its status and text. A throw while
   * building the email happens before either.
   */
  function SendEmailReport(options: EmailOptions, env: Environment, hasOverride: bool, response: Response): (r: Result<Delivery>)
    ensures r.Thrown? <==> GenerateRawEmail(options, env).Thrown? || (!hasOverride && !response.ok)
    ensures GenerateRawEmail(options, env).Ok? && !hasOverride && !response.ok ==>
              r == Thrown("Failed to send bug report: " + NatToString(response.status) + " " + response.text)
    ensures r.Ok? ==> r.value.rawEmail == GenerateRawEmail(options, env).value
    ensures r.Ok? ==> (r.value.Override? <==> hasOverride)
    ensures r.Ok? && r.value.DefaultPost? ==>
              r.value.url == "https://tesseract-api.com/v1/email/send-mail-post" && r.value.contentType == "application/json"
  {
    match GenerateRawEmail(options, env)
    case Thrown(reason) => Thrown(reason)
    case Ok(rawEmail) =>
      if hasOverride then Ok(Override(rawEmail))
      else if !response.ok then Thrown("Failed to send bug report: " + NatToString(response.status) + " " + response.text)
      else Ok(DefaultPost(Endpoint, "application/json", rawEmail))
  }

  // ---------------------------------------------------------------- the email as a MIME message

  function TopHeaders(to: string, subject: string, boundary: string): seq<string>
  {
    [ "From: \"" + FromName + "\" <" + FromEmail + ">",
      "To: " + to,
      "Subject: " + subject,
      "MIME-Version: 1.0",
      "Content-Type: multipart/mixed; boundary=\"" + boundary + "\"" ]
  }

  const BodyHeaders := ["Content-Type: text/plain; charset=\"UTF-8\"", "Content-Transfer-Encoding: 7bit"]

  /** The plain-text body part; its content runs up to the line break before the next delimiter. */
  function BodyPart(fullBody: string): Mime.Part
  {
    Mime.Part(BodyHeaders, fullBody + "\n")
  }

  function Base64TextHeaders(filename: string): seq<string>
  {
    [ "Content-Type: text/plain; name=\"" + filename + "\"",
      "Content-Transfer-Encoding: base64",
      "Content-Disposition: attachment; filename=\"" + filename + "\"" ]
  }

  const ScreenshotHeaders := [
    "Content-Type: image/png; name=\"screenshot.png\"",
    "Content-Transfer-Encoding: base64",
    "Content-Disposition: attachment; filename=\"screenshot.png\"" ]

  /** The screenshot part: present iff a non-empty screenshot is given; its content is the screenshot without the data-URL prefix. */
  function ScreenshotPart(base64: Option<string>): (p: Option<Mime.Part>)
    ensures p.Some? <==> base64.Some? && base64.value != ""
    ensures p.Some? ==> p.value.headers == ScreenshotHeaders && p.value.content == StripDataUrlPrefix(base64.value)
  {
    if base64.None? || base64.value == "" then None else Some(Mime.Part(ScreenshotHeaders, StripDataUrlPrefix(base64.value)))
  }

  /**
   * The console-log part: present iff there is at least one log; it is named by the local
   * time and the random suffix, and its base64 content decodes to the logs joined by blank lines.
   */
  function LogPart(logs: Option<seq<string>>, now: LocalTime, randomSuffix: string): (p: Option<Mime.Part>)
    ensures p.Some? <==> logs.Some? && |logs.value| > 0
    ensures p.Some? ==> p.value.headers == Base64TextHeaders(LogFileName(now, randomSuffix))
    ensures p.Some? ==> && Base64.Decode(p.value.content).Some?
                        && Utf8.Decode(Base64.Decode(p.value.content).value) == Some(Join(logs.value, "\n\n"))
    ensures p.Some? ==> p.value.content == Base64.Encode(Utf8.Encode(Join(logs.value, "\n\n")))
  {
    if logs.None? || |logs.value| == 0 then None
    else Some(Mime.Part(Base64TextHeaders(LogFileName(now, randomSuffix)), BinaryString.Utf8Base64(Join(logs.value, "\n\n"))))
  }

  /** The custom-log part: present iff there are details; its base64 content decodes to them. */
  function CustomLogPart(details: Option<string>, now: LocalTime, randomSuffix: string): (p: Option<Mime.Part>)
    ensures p.Some? <==> details.Some?
    ensures p.Some? ==> p.value.headers == Base64TextHeaders(CustomLogFileName(now, randomSuffix))
    ensures p.Some? ==> && Base64.Decode(p.value.content).Some?
                        && Utf8.Decode(Base64.Decode(p.value.content).value) == Some(details.value)
    ensures p.Some? ==> p.value.content == Base64.Encode(Utf8.Encode(details.value))
  {
    if details.None? then None
    else Some(Mime.Part(Base64TextHeaders(CustomLogFileName(now, randomSuffix)), BinaryString.Utf8Base64(details.value)))
  }

  /** The parts that are present, in their order. */
  function Somes(ps: seq<Option<Mime.Part>>): (qs: seq<Mime.Part>)
    ensures |qs| <= |ps|
    decreases |ps|
  {
    if |ps| == 0 then [] else (if ps[0].Some? then [ps[0].value] else []) + Somes(ps[1..])
  }

  /** The attachments, in the order screenshot, console logs, custom log, absent ones left out. */
  function Attachments(options: EmailOptions, env: Environment, details: Option<string>): seq<Mime.Part>
  {
    var suffix := RandomSuffix(env.randomBase36);
    Somes([ScreenshotPart(options.screenshotBase64), LogPart(options.logs, env.now, suffix), CustomLogPart(details, env.now, suffix)])
  }

  /** An optional part as the text of its encapsulation. */
  function AsText(boundary: string, p: Option<Mime.Part>): Option<string>
  {
    if p.Some? then Some(Mime.Encapsulation(boundary, p.value)) else None
  }

  lemma LinesOfThree(a: string, b: string, c: string)
    ensures Mime.Lines([a, b, c]) == a + "\n" + b + "\n" + c + "\n"
  {
    assert [a, b, c][1..] == [b, c];
    assert [b, c][1..] == [c];
    assert [c][1..] == [];
    assert Mime.Lines([c]) == c + "\n";
    assert Mime.Lines([b, c]) == b + "\n" + (c + "\n");
    assert Mime.Lines([a, b, c]) == a + "\n" + (b + "\n" + (c + "\n"));
  }

  lemma EncapsulationOfThree(boundary: string, a: string, b: string, c: string, content: string)
    ensures Mime.Encapsulation(boundary, Mime.Part([a, b, c], content))
         == "\n--" + boundary + "\n" + a + "\n" + b + "\n" + c + "\n" + "\n" + content
  {
    LinesOfThree(a, b, c);
  }

  lemma ScreenshotBuilderIsEncapsulation(base64: Option<string>, boundary: string)
    ensures BuildScreenshotAttachment(base64, boundary) == AsText(boundary, ScreenshotPart(base64))
  {
    if base64.Some? && base64.value != "" {
      EncapsulationOfThree(boundary, ScreenshotHeaders[0], ScreenshotHeaders[1], ScreenshotHeaders[2], StripDataUrlPrefix(base64.value));
    }
  }

  lemma LogBuilderIsEncapsulation(logs: Option<seq<string>>, boundary: string, now: LocalTime, randomSuffix: string)
    ensures BuildLogAttachment(logs, boundary, now, randomSuffix) == AsText(boundary, LogPart(logs, now, randomSuffix))
  {
    if logs.Some? && |logs.value| > 0 {
      var h := Base64TextHeaders(LogFileName(now, randomSuffix));
      EncapsulationOfThree(boundary, h[0], h[1], h[2], BinaryString.Utf8Base64(Join(logs.value, "\n\n")));
    }
  }

  lemma CustomLogBuilderIsEncapsulation(customLog: Option<seq<(string, Value)>>, boundary: string, now: LocalTime, randomSuffix: string)
    requires CustomLogDetails(customLog).Ok?
    ensures BuildCustomLogObject(customLog, boundary, now, randomSuffix)
            == Ok(AsText(boundary, CustomLogPart(CustomLogDetails(customLog).value, now, randomSuffix)))
  {
    var d := CustomLogDetails(customLog);
    if d.value.Some? {
      var h := Base64TextHeaders(CustomLogFileName(now, randomSuffix));
      EncapsulationOfThree(boundary, h[0], h[1], h[2], BinaryString.Utf8Base64(d.value.value));
    }
  }

  /** Dropping the missing attachments and concatenating the rest gives the encapsulations of the present parts. */
  lemma {:induction false} FilterTruthyEncapsulations(boundary: string, ps: seq<Option<Mime.Part>>)
    ensures Concat(FilterTruthy(seq(|ps|, i requires 0 <= i < |ps| => AsText(boundary, ps[i]))))
            == Mime.Encapsulations(boundary, Somes(ps))
    decreases |ps|
  {
    var texts := seq(|ps|, i requires 0 <= i < |ps| => AsText(boundary, ps[i]));
    if |ps| > 0 {
      var rest := seq(|ps| - 1, i requires 0 <= i < |ps| - 1 => AsText(boundary, ps[1..][i]));
      assert texts[1..] == rest;
      FilterTruthyEncapsulations(boundary, ps[1..]);
      if ps[0].Some? {
        var e := Mime.Encapsulation(boundary, ps[0].value);
        assert e != "" by { assert e[0] == '\n'; }
        assert FilterTruthy(texts) == [e] + FilterTruthy(rest);
        ConcatCons(e, FilterTruthy(rest));
        assert Somes(ps) == [ps[0].value] + Somes(ps[1..]);
        assert ([ps[0].value] + Somes(ps[1..]))[1..] == Somes(ps[1..]);
      } else {
        assert FilterTruthy(texts) == FilterTruthy(rest);
        assert Somes(ps) == Somes(ps[1..]);
      }
    }
  }

  lemma LinesOfTwo(a: string, b: string)
    ensures Mime.Lines([a, b]) == a + "\n" + b + "\n"
  {
    assert [a, b][1..] == [b];
    assert [b][1..] == [];
    assert Mime.Lines([b]) == b + "\n";
    assert Mime.Lines([a, b]) == a + "\n" + (b + "\n");
  }

  lemma LinesOfFive(a: string, b: string, c: string, d: string, e: string)
    ensures Mime.Lines([a, b, c, d, e]) == a + "\n" + b + "\n" + c + "\n" + d + "\n" + e + "\n"
  {
    assert [a, b, c, d, e][1..] == [b, c, d, e];
    assert [b, c, d, e][1..] == [c, d, e];
    LinesOfThree(c, d, e);
  }

  /** The header lines of the message and of the body part, as the email writes them. */
  lemma HeaderText(h: seq<string>, boundary: string, bh: seq<string>)
    requires |h| == 5 && |bh| == 2
    ensures Mime.Lines(h) + "\n" + "--" + boundary + "\n" + Mime.Lines(bh) + "\n"
         == h[0] + "\n" + h[1] + "\n" + h[2] + "\n" + h[3] + "\n" + h[4] + "\n" + "\n"
            + "--" + boundary + "\n" + bh[0] + "\n" + bh[1] + "\n" + "\n"
  {
    assert h == [h[0], h[1], h[2], h[3], h[4]];
    assert bh == [bh[0], bh[1]];
    LinesOfFive(h[0], h[1], h[2], h[3], h[4]);
    LinesOfTwo(bh[0], bh[1]);
  }

  /** Three optional texts, each the encapsulation of an optional part, concatenate to the encapsulations of the parts present. */
  lemma ThreeTexts(boundary: string, a: Option<string>, b: Option<string>, c: Option<string>,
                   pa: Option<Mime.Part>, pb: Option<Mime.Part>, pc: Option<Mime.Part>)
    requires a == AsText(boundary, pa) && b == AsText(boundary, pb) && c == AsText(boundary, pc)
    ensures Concat(FilterTruthy([a, b, c])) == Mime.Encapsulations(boundary, Somes([pa, pb, pc]))
  {
    var ps := [pa, pb, pc];
    FilterTruthyEncapsulations(boundary, ps);
    assert seq(|ps|, i requires 0 <= i < |ps| => AsText(boundary, ps[i])) == [a, b, c];
  }

  /** The attachment texts the email concatenates are the encapsulations of the attachment parts. */
  lemma AttachmentText(options: EmailOptions, env: Environment, boundary: string)
    requires CustomLogDetails(options.customLogObject).Ok?
    ensures var suffix := RandomSuffix(env.randomBase36);
            Concat(FilterTruthy([BuildScreenshotAttachment(options.screenshotBase64, boundary),
                                 BuildLogAttachment(options.logs, boundary, env.now, suffix),
                                 BuildCustomLogObject(options.customLogObject, boundary, env.now, suffix).value]))
            == Mime.Encapsulations(boundary, Attachments(options, env, CustomLogDetails(options.customLogObject).value))
  {
    var suffix := RandomSuffix(env.randomBase36);
    ScreenshotBuilderIsEncapsulation(options.screenshotBase64, boundary);
    LogBuilderIsEncapsulation(options.logs, boundary, env.now, suffix);
    CustomLogBuilderIsEncapsulation(options.customLogObject, boundary, env.now, suffix);
    ThreeTexts(boundary,
               BuildScreenshotAttachment(options.screenshotBase64, boundary),
               BuildLogAttachment(options.logs, boundary, env.now, suffix),
               BuildCustomLogObject(options.customLogObject, boundary, env.now, suffix).value,
               ScreenshotPart(options.screenshotBase64), LogPart(options.logs, env.now, suffix),
               CustomLogPart(CustomLogDetails(options.customLogObject).value, env.now, suffix));
  }

  /**
   * The generated email is framed as a `multipart/mixed` message: the top-level headers
   * (whose `boundary=` parameter is the delimiter used throughout), the plain-text body
   * part, then the present attachments in the order screenshot, console logs, custom log,
   * then the close-delimiter. It throws exactly when the custom log's JSON.stringify throws.
   */
  lemma GenerateRawEmailIsMultipart(options: EmailOptions, env: Environment)
    ensures var r := GenerateRawEmail(options, env);
            var details := CustomLogDetails(options.customLogObject);
            var boundary := Boundary(env.nowMillis);
            && (r.Thrown? <==> details.Thrown?)
            && (r.Ok? ==> r.value == Mime.Multipart(
                             TopHeaders(options.to, Subject(options.subjectPrefix, options.appName), boundary),
                             boundary,
                             [BodyPart(FullBody(options.message, FormatReporterBlock(options.reporter)))]
                               + Attachments(options, env, details.value)))
  {
    var details := CustomLogDetails(options.customLogObject);
    if details.Ok? {
      var boundary := Boundary(env.nowMillis);
      var subject := Subject(options.subjectPrefix, options.appName);
      var fullBody := FullBody(options.message, FormatReporterBlock(options.reporter));
      var atts := Attachments(options, env, details.value);
      AttachmentText(options, env, boundary);
      HeaderText(TopHeaders(options.to, subject, boundary), boundary, BodyHeaders);
      Mime.MultipartWithFirstPart(TopHeaders(options.to, subject, boundary), boundary, BodyHeaders, fullBody, atts);
    }
  }

  // ---------------------------------------------------------------- attachment properties

  /** Attachments appear in the fixed order screenshot, console logs, custom log, each iff present. */
  lemma AttachmentOrder(options: EmailOptions, env: Environment, details: Option<string>)
    ensures var atts := Attachments(options, env, details);
            var hasShot := options.screenshotBase64.Some? && options.screenshotBase64.value != "";
            var hasLogs := options.logs.Some? && |options.logs.value| > 0;
            var hasCustom := details.Some?;
            var i := if hasShot then 1 else 0;
            var j := i + (if hasLogs then 1 else 0);
            && |atts| == j + (if hasCustom then 1 else 0)
            && (hasShot ==> atts[0].headers == ScreenshotHeaders)
            && (hasLogs ==> atts[i].headers == Base64TextHeaders(LogFileName(env.now, RandomSuffix(env.randomBase36))))
            && (hasCustom ==> atts[j].headers == Base64TextHeaders(CustomLogFileName(env.now, RandomSuffix(env.randomBase36))))
  {
    var suffix := RandomSuffix(env.randomBase36);
    var a, b, c := ScreenshotPart(options.screenshotBase64), LogPart(options.logs, env.now, suffix), CustomLogPart(details, env.now, suffix);
    SomesOfThree(a, b, c);
  }

  lemma SomesOfThree(a: Option<Mime.Part>, b: Option<Mime.Part>, c: Option<Mime.Part>)
    ensures Somes([a, b, c]) == (if a.Some? then [a.value] else []) + (if b.Some? then [b.value] else [])
                                + (if c.Some? then [c.value] else [])
  {
    assert [a, b, c][1..] == [b, c] && [b, c][1..] == [c] && [c][1..] == [];
    var sc := Somes([c]);
    assert sc == (if c.Some? then [c.value] else []);
    var sb := Somes([b, c]);
    assert sb == (if b.Some? then [b.value] else []) + sc;
  }

  /** The custom log is present iff the object is truthy, and the email throws iff one of its object values cannot be stringified. */
  lemma CustomLogPresence(customLog: Option<seq<(string, Value)>>)
    ensures var d := CustomLogDetails(customLog);
            && (d.Ok? && d.value.Some? <==> customLog.Some? && CustomLogLines(customLog.value).Ok?)
            && (d.Thrown? <==> customLog.Some? && exists i :: 0 <= i < |customLog.value| && CustomValueText(customLog.value[i].1).Thrown?)
            && (d.Ok? && d.value.Some? ==> d.value.value == Join(CustomLogLines(customLog.value).value, "\n"))
  {
    if customLog.Some? {
      var lines := CustomLogLines(customLog.value);
      assert lines.Thrown? ==> CustomLogDetails(customLog).Thrown?;
    }
  }

  /** A prefixed screenshot and the same bare base64 give the same part. */
  lemma ScreenshotPrefixIrrelevant(bare: string)
    requires bare != ""
    requires Base64.IsBase64Text(bare)
    ensures ScreenshotPart(Some(ScreenshotPrefix + bare)) == ScreenshotPart(Some(bare))
    ensures StripDataUrlPrefix(bare) == bare
  {
    var p := ScreenshotPrefix + bare;
    assert p[..|ScreenshotPrefix|] == ScreenshotPrefix;
    assert p[|ScreenshotPrefix|..] == bare;
    assert !StartsWith(bare, ScreenshotPrefix) by {
      assert ScreenshotPrefix[4] == ':';
      assert Base64.ValueOf(':').None?;
      assert |ScreenshotPrefix| <= |bare| ==> bare[4] != ':' by {
        if |bare| > 4 { assert Base64.InAlphabet(bare[4]) || bare[4] == '='; }
      }
    }
  }

  /** Stripping twice is stripping once, unless the text carried the prefix twice. */
  lemma StripIdempotentUnlessDoublyPrefixed(s: string)
    requires !StartsWith(s, ScreenshotPrefix + ScreenshotPrefix)
    ensures StripDataUrlPrefix(StripDataUrlPrefix(s)) == StripDataUrlPrefix(s)
  {
    var n := |ScreenshotPrefix|;
    if StartsWith(s, ScreenshotPrefix) {
      var t := s[n..];
      assert s[..n] == ScreenshotPrefix;
    }
  }

  /** Only one prefix is removed: a doubly-prefixed text keeps its second prefix. */
  lemma StripRemovesOnlyOnePrefix(bare: string)
    ensures StripDataUrlPrefix(ScreenshotPrefix + ScreenshotPrefix + bare) == ScreenshotPrefix + bare
    ensures StripDataUrlPrefix(StripDataUrlPrefix(ScreenshotPrefix + ScreenshotPrefix + bare)) == bare
  {
    var n := |ScreenshotPrefix|;
    var s := ScreenshotPrefix + ScreenshotPrefix + bare;
    assert s[..n] == ScreenshotPrefix;
    assert s[n..] == ScreenshotPrefix + bare;
    assert (ScreenshotPrefix + bare)[..n] == ScreenshotPrefix;
    assert (ScreenshotPrefix + bare)[n..] == bare;
  }
}
