/**
 * The Microsoft Teams bug-report card: `prettyPrintLogsContainersMSTeams`,
 * `getTeamsChatURL` and `formatBugReport_AdaptiveCardJSON`, as an Adaptive Cards 1.4
 * document tree. The final `JSON.stringify(card, null, 2)` text is not modelled; every
 * property below is stated on the tree.
 */
module AdaptiveCard {
  import opened Wrappers
  import opened Text
  import opened LogModel
  import ConsoleCapture
  import UriComponent

  datatype ContainerStyle = Attention | Warning | Accent | Emphasis

  /**
   * The fixed attributes a TextBlock carries besides its text:
   * Heading = weight Bolder, size Large, wrap; Plain = wrap;
   * Monospace = wrap, fontType Monospace, spacing None, left-aligned, colour light.
   */
  datatype TextFormat = Heading | Plain | Monospace

  datatype Action =
    | OpenUrl(title: string, url: string)
    | ToggleVisibility(title: string, targetElements: seq<string>)

  datatype Element =
    | TextBlock(text: string, format: TextFormat)
    | ActionSet(actions: seq<Action>)
    | Container(id: string, style: ContainerStyle, bleed: bool, items: seq<Element>)

  /** `{type: "AdaptiveCard", $schema, version, body, actions, msteams: {width}}` */
  datatype Card = Card(schema: string, version: string, body: seq<Element>, actions: seq<Action>, msteamsWidth: string)

  /** The reporter object as the card reads it: `email`, `${fullName}` and `${userInfo}`. */
  datatype UserInfo = UserInfo(email: Option<string>, fullName: string, coerced: string)

  const ContainerKey := "StackTraceContainer"
  const TeamsChatBase := "https://teams.microsoft.com/l/chat/0/0?users="

  /** error -> attention (red), warn -> warning (orange), info -> accent (blue), log -> emphasis (grey). */
  function StyleOf(kind: LogType): ContainerStyle
  {
    match kind
    case Error => Attention
    case Warn => Warning
    case Info => Accent
    case Log => Emphasis
  }

  function ContainerId(keyFormat: string, i: nat): string
  {
    keyFormat + NatToString(i)
  }

  /** The `i`-th log container; `text || ' '` falls back to a space for an empty text. */
  function LogContainer(e: LogEntry, keyFormat: string, i: nat): Element
  {
    var text := ConsoleCapture.EntryText(e);
    Container(ContainerId(keyFormat, i), StyleOf(e.kind), true, [TextBlock(if text == "" then " " else text, Monospace)])
  }

  /**
   * `prettyPrintLogsContainersMSTeams`: one container per entry, in order, identified by the
   * key and its index, styled by its type, holding the entry text (never empty, so the
   * space fallback never applies).
   */
  function PrettyPrintLogsContainersMSTeams(logs: seq<LogEntry>, keyFormat: string): (cs: seq<Element>)
    ensures |cs| == |logs|
    ensures forall i :: 0 <= i < |cs| ==>
              && cs[i].Container?
              && cs[i].id == ContainerId(keyFormat, i)
              && cs[i].style == StyleOf(logs[i].kind)
              && cs[i].bleed
              && cs[i].items == [TextBlock(ConsoleCapture.EntryText(logs[i]), Monospace)]
  {
    var cs := seq(|logs|, i requires 0 <= i < |logs| => LogContainer(logs[i], keyFormat, i));
    assert forall i :: 0 <= i < |logs| ==> ConsoleCapture.EntryText(logs[i]) != "" by {
      forall i | 0 <= i < |logs| ensures ConsoleCapture.EntryText(logs[i]) != "" {
        ConsoleCapture.EntryTextShape(logs[i]);
      }
    }
    cs
  }

  /** Container ids are pairwise distinct. */
  lemma ContainerIdsDistinct(keyFormat: string, i: nat, j: nat)
    requires i != j
    ensures ContainerId(keyFormat, i) != ContainerId(keyFormat, j)
  {
    if ContainerId(keyFormat, i) == ContainerId(keyFormat, j) {
      var a, b := keyFormat + NatToString(i), keyFormat + NatToString(j);
      assert a[|keyFormat|..] == NatToString(i);
      assert b[|keyFormat|..] == NatToString(j);
      NatToStringInjective(i, j);
    }
  }

  /** `getTeamsChatURL`: no link without an email; the message parameter only when a message is given. */
  function GetTeamsChatURL(email: Option<string>, autoMessage: Option<string>): (r: Option<string>)
    ensures r.None? <==> email.None? || email.value == ""
    ensures r.Some? && (autoMessage.None? || autoMessage.value == "") ==>
              r.value == TeamsChatBase + UriComponent.Encode(email.value)
    ensures r.Some? && autoMessage.Some? && autoMessage.value != "" ==>
              r.value == TeamsChatBase + UriComponent.Encode(email.value) + "&message=" + UriComponent.Encode(autoMessage.value)
  {
    if email.None? || email.value == "" then None
    else
      var baseUrl := TeamsChatBase + UriComponent.Encode(email.value);
      if autoMessage.Some? && autoMessage.value != "" then
        Some(baseUrl + "&message=" + UriComponent.Encode(autoMessage.value))
      else Some(baseUrl)
  }

  /**
   * The `users` parameter of a chat link carries the email recoverably: it holds no `&`
   * (so it ends where `&message=` begins) and decodes back to the email.
   */
  lemma ChatUrlCarriesEmail(email: string, autoMessage: Option<string>)
    requires email != ""
    ensures var r := GetTeamsChatURL(Some(email), autoMessage);
            var users := UriComponent.Encode(email);
            && r.Some? && StartsWith(r.value, TeamsChatBase + users)
            && '&' !in users
            && UriComponent.Decode(users) == Some(email)
  {
    var users := UriComponent.Encode(email);
    UriComponent.EncodeAlphabet(email);
    UriComponent.DecodeEncode(email);
    if autoMessage.Some? && autoMessage.value != "" {
      StartsWithConcat(TeamsChatBase + users, "&message=", UriComponent.Encode(autoMessage.value));
    } else {
      StartsWithConcat(TeamsChatBase + users, "", "");
      assert TeamsChatBase + users + "" == TeamsChatBase + users;
    }
  }

  function ScreenshotBlock(screenshotURL: Option<string>): Element
  {
    if screenshotURL.Some? && screenshotURL.value != "" then
      ActionSet([OpenUrl("\U{1F5BC}\U{FE0F} View screenshot", screenshotURL.value)])
    else TextBlock("No screenshot provided.", Plain)
  }

  function ChatUrlOf(userInfo: Option<UserInfo>): Option<string>
  {
    GetTeamsChatURL(if userInfo.Some? then userInfo.value.email else None, None)
  }

  function UserBlock(userInfo: Option<UserInfo>): Element
  {
    match ChatUrlOf(userInfo)
    case Some(url) => ActionSet([OpenUrl("\U{1F4AC} Chat with " + userInfo.value.fullName, url)])
    case None =>
      TextBlock(if userInfo.Some? then "User Info: " + userInfo.value.coerced else "No user info provided.", Plain)
  }

  function LogBlocks(consoleLogs: seq<LogEntry>): seq<Element>
  {
    if |consoleLogs| > 0 then PrettyPrintLogsContainersMSTeams(consoleLogs, ContainerKey)
    else [TextBlock("No stack trace provided.", Plain)]
  }

  function ToggleTargets(consoleLogs: seq<LogEntry>): seq<string>
  {
    seq(|consoleLogs|, i requires 0 <= i < |consoleLogs| => ContainerId(ContainerKey, i))
  }

  /** `formatBugReport_AdaptiveCardJSON`, before its final `JSON.stringify`. */
  function FormatBugReportCard(message: string, screenshotURL: Option<string>,
                               userInfo: Option<UserInfo>, consoleLogs: seq<LogEntry>): Card
  {
    Card(
      "http://adaptivecards.io/schemas/adaptive-card.json",
      "1.4",
      [TextBlock(message, Heading), ScreenshotBlock(screenshotURL), UserBlock(userInfo)] + LogBlocks(consoleLogs),
      if |consoleLogs| > 0 then [ToggleVisibility("\U{1F4DC} Toggle Stack Trace", ToggleTargets(consoleLogs))] else [],
      "Full")
  }

  /**
   * The body in its fixed order: the message as title; the screenshot link iff a screenshot
   * URL is given; the chat link iff the reporter has an email, otherwise the reporter as
   * text or "No user info provided."; then one container per log entry, or the single
   * "No stack trace provided." block when there are none.
   */
  lemma CardBodyOrder(message: string, screenshotURL: Option<string>,
                      userInfo: Option<UserInfo>, consoleLogs: seq<LogEntry>)
    ensures var body := FormatBugReportCard(message, screenshotURL, userInfo, consoleLogs).body;
            && |body| == 3 + (if |consoleLogs| > 0 then |consoleLogs| else 1)
            && body[0] == TextBlock(message, Heading)
            && (body[1].ActionSet? <==> screenshotURL.Some? && screenshotURL.value != "")
            && (body[1].ActionSet? ==> body[1].actions[0].url == screenshotURL.value)
            && (body[1].ActionSet? ==> body[1] == ActionSet([OpenUrl("\U{1F5BC}\U{FE0F} View screenshot", screenshotURL.value)]))
            && (!body[1].ActionSet? ==> body[1] == TextBlock("No screenshot provided.", Plain))
            && (body[2].ActionSet? <==> userInfo.Some? && userInfo.value.email.Some? && userInfo.value.email.value != "")
            && (body[2].ActionSet? ==>
                  body[2] == ActionSet([OpenUrl("\U{1F4AC} Chat with " + userInfo.value.fullName,
                                                GetTeamsChatURL(userInfo.value.email, None).value)]))
            && (!body[2].ActionSet? && userInfo.None? ==> body[2] == TextBlock("No user info provided.", Plain))
            && (!body[2].ActionSet? && userInfo.Some? ==> body[2] == TextBlock("User Info: " + userInfo.value.coerced, Plain))
            && (|consoleLogs| == 0 ==> body[3] == TextBlock("No stack trace provided.", Plain))
            && (forall i :: 0 <= i < |consoleLogs| ==>
                  body[3 + i].Container? && body[3 + i].id == ContainerId(ContainerKey, i)
                  && body[3 + i].style == StyleOf(consoleLogs[i].kind) && body[3 + i].bleed
                  && body[3 + i].items == [TextBlock(ConsoleCapture.EntryText(consoleLogs[i]), Monospace)])
  {
    var body := FormatBugReportCard(message, screenshotURL, userInfo, consoleLogs).body;
    var logs := LogBlocks(consoleLogs);
    assert forall i :: 0 <= i < |logs| ==> body[3 + i] == logs[i];
  }

  /**
   * The top-level actions: exactly one ToggleVisibility iff there are log entries, and its
   * targets are the ids of the log containers in the body, in order, all distinct.
   */
  lemma CardToggleTargetsContainers(message: string, screenshotURL: Option<string>,
                                    userInfo: Option<UserInfo>, consoleLogs: seq<LogEntry>)
    ensures var card := FormatBugReportCard(message, screenshotURL, userInfo, consoleLogs);
            && (|consoleLogs| == 0 <==> card.actions == [])
            && (|consoleLogs| > 0 ==>
                  && |card.actions| == 1 && card.actions[0].ToggleVisibility?
                  && |card.actions[0].targetElements| == |consoleLogs|
                  && (forall i :: 0 <= i < |consoleLogs| ==> card.actions[0].targetElements[i] == card.body[3 + i].id)
                  && (forall i, j :: 0 <= i < j < |consoleLogs| ==>
                        card.actions[0].targetElements[i] != card.actions[0].targetElements[j]))
  {
    var card := FormatBugReportCard(message, screenshotURL, userInfo, consoleLogs);
    if |consoleLogs| > 0 {
      CardBodyOrder(message, screenshotURL, userInfo, consoleLogs);
      var targets := card.actions[0].targetElements;
      forall i, j | 0 <= i < j < |consoleLogs| ensures targets[i] != targets[j] {
        ContainerIdsDistinct(ContainerKey, i, j);
      }
    }
  }
}
